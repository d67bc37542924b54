/** Copy-on-write of private anonymous memory: fork shares pages write-protected (copy_one_pte), a
    write fault copies the page or reuses it (do_wp_page, wp_page_copy, wp_page_reuse), a missing
    page becomes the zero page or a fresh one (do_anonymous_page), and unmap drops it.

    Faults are cut at every point where the page-table lock is dropped, and run beside each other,
    beside user accesses and beside forks of other processes.  mmap_sem keeps a fork apart from the
    faults of the same process, and the child does not run before the fork is over, which it is when
    every page has been copied.  The specification machine copies all memory in one step. */
module CowRefinement {

  const PAGE_BYTES: nat := 4096
  /** The page that every read fault maps; it is never written and never counted. */
  const ZERO_PAGE: nat := 0

  type Data = d: seq<int> | |d| == PAGE_BYTES witness Zeroes()

  function Zeroes(): (d: seq<int>)
    ensures |d| == PAGE_BYTES
  { seq(PAGE_BYTES, _ => 0) }

  /** One page of one process. */
  datatype Loc = Loc(proc: nat, page: nat)

  /** A present entry: the page frame and whether stores are allowed. */
  datatype Pte = Pte(frame: nat, write: bool)

  /** A fault that has dropped the lock, or an rmap still to be dropped. */
  datatype Fault =
    | Anon(loc: Loc, own: nat)                           // zeroed page allocated, entry not yet looked at again
    | Hold(loc: Loc, orig: Pte)                            // reference on the old page taken, lock dropped
    | Copying(loc: Loc, orig: Pte, own: nat, done: nat)  // the first `done` bytes are copied
    | Dropping(proc: nat, frame: nat)                      // entry already switched or cleared, mapcount not yet lowered
  {
    function Proc(): nat { if Dropping? then proc else loc.proc }

    predicate HasOwn(f: nat) { (Anon? || Copying?) && own == f }

    /** The fault keeps a reference on the frame, so that it cannot be allocated again. */
    predicate Keeps(f: nat) {
      HasOwn(f) || ((Hold? || Copying?) && orig.frame == f) || (Dropping? && frame == f)
    }
  }

  datatype State = State(
    ptes: map<Loc, Pte>,
    content: map<nat, Data>,
    mapcount: map<nat, int>,
    faults: map<nat, Fault>,
    forking: map<nat, nat>)   // parent -> child, while the parent's mmap_sem is held for writing
  {
    function Content(f: nat): Data { if f in content then content[f] else Zeroes() }

    function MapCount(f: nat): int { if f in mapcount then mapcount[f] else 0 }

    predicate Maps(l: Loc, f: nat) { l in ptes && ptes[l].frame == f }

    /** The allocator hands out frames that nothing maps and nothing references. */
    predicate Free(f: nat) {
      f != ZERO_PAGE && (forall l :: l in ptes ==> ptes[l].frame != f) && (forall t :: t in faults ==> !faults[t].Keeps(f))
    }

    /** The process is not the child of a fork that is still going on. */
    predicate Awake(p: nat) { forall q :: q in forking ==> forking[q] != p }

    /** Every page that p maps has been copied into its child. */
    predicate WholeCopied(p: nat)
      requires p in forking
    { forall l :: l in ptes && l.proc == p ==> Loc(forking[p], l.page) in ptes }

    /** mmap_sem can be taken for reading by a fault of process p. */
    predicate Readable(p: nat) { forall q :: q in forking ==> q != p && forking[q] != p }

    predicate Quiet(p: nat) { forall t :: t in faults ==> faults[t].Proc() != p }

    /** What a process sees in its memory. */
    function View(l: Loc): Data { if l in ptes then Content(ptes[l].frame) else Zeroes() }
  }

  datatype Action =
    | Load(loc: Loc, off: nat)
    | Store(loc: Loc, off: nat, value: int)
    | ReadFault(loc: Loc)
    | AnonAlloc(tid: nat, loc: Loc, own: nat)
    | AnonInstall(tid: nat)
    | WpReuse(loc: Loc)
    | WpHold(tid: nat, loc: Loc)
    | WpAlloc(tid: nat, own: nat)
    | WpCopyByte(tid: nat)
    | WpInstall(tid: nat)
    | DropRmap(tid: nat)
    | Abort(tid: nat)
    | Unmap(tid: nat, loc: Loc)
    | ForkBegin(proc: nat, child: nat)
    | CopyPte(proc: nat, page: nat)
    | ForkEnd(proc: nat)

  predicate FaultAllowed(s: State, t: nat, l: Loc) { t !in s.faults && s.Readable(l.proc) }

  predicate Enabled(s: State, a: Action) {
    match a
    case Load(l, off) => l in s.ptes && off < PAGE_BYTES && s.Awake(l.proc)
    case Store(l, off, _) => l in s.ptes && s.ptes[l].write && off < PAGE_BYTES && s.Awake(l.proc)
    case ReadFault(l) => l !in s.ptes && s.Readable(l.proc)
    case AnonAlloc(t, l, f) => FaultAllowed(s, t, l) && s.Free(f)
    case AnonInstall(t) => t in s.faults && s.faults[t].Anon?
    case WpReuse(l) => l in s.ptes && !s.ptes[l].write && s.ptes[l].frame != ZERO_PAGE && s.MapCount(s.ptes[l].frame) == 1 && s.Readable(l.proc)
    case WpHold(t, l) => FaultAllowed(s, t, l) && l in s.ptes && !s.ptes[l].write && (s.ptes[l].frame == ZERO_PAGE || s.MapCount(s.ptes[l].frame) != 1)
    case WpAlloc(t, f) => t in s.faults && s.faults[t].Hold? && s.Free(f)
    case WpCopyByte(t) => t in s.faults && s.faults[t].Copying? && s.faults[t].done < PAGE_BYTES
    case WpInstall(t) => t in s.faults && s.faults[t].Copying? && s.faults[t].done == PAGE_BYTES
    case DropRmap(t) => t in s.faults && s.faults[t].Dropping?
    case Abort(t) => t in s.faults && !s.faults[t].Dropping?
    case Unmap(t, l) => FaultAllowed(s, t, l) && l in s.ptes
    case ForkBegin(p, c) => p != c && s.Readable(p) && s.Readable(c) && s.Quiet(p) && s.Quiet(c) && (forall l :: l in s.ptes ==> l.proc != c)
    case CopyPte(p, v) => p in s.forking && Loc(p, v) in s.ptes && Loc(s.forking[p], v) !in s.ptes
    case ForkEnd(p) => p in s.forking && s.WholeCopied(p)
  }

  /** Install a fresh page, writable, as the only mapping. */
  function Install(s: State, l: Loc, f: nat): State
  { s.(ptes := s.ptes[l := Pte(f, true)], mapcount := s.mapcount[f := 1]) }

  function Next(s: State, a: Action): State
    requires Enabled(s, a)
  {
    match a
    case Load(_, _) => s
    case Store(l, off, v) => var f := s.ptes[l].frame; s.(content := s.content[f := s.Content(f)[off := v]])
    case ReadFault(l) => s.(ptes := s.ptes[l := Pte(ZERO_PAGE, false)])
    case AnonAlloc(t, l, f) => s.(content := s.content[f := Zeroes()], faults := s.faults[t := Anon(l, f)])
    case AnonInstall(t) =>
      var rest := s.(faults := s.faults - {t});
      if s.faults[t].loc in s.ptes then rest else Install(rest, s.faults[t].loc, s.faults[t].own)
    case WpReuse(l) => s.(ptes := s.ptes[l := s.ptes[l].(write := true)])
    case WpHold(t, l) => s.(faults := s.faults[t := Hold(l, s.ptes[l])])
    case WpAlloc(t, f) =>
      // the zero page is not copied byte by byte: the fresh page comes zeroed
      var h := s.faults[t];
      var done := if h.orig.frame == ZERO_PAGE then PAGE_BYTES else 0;
      s.(content := s.content[f := Zeroes()], faults := s.faults[t := Copying(h.loc, h.orig, f, done)])
    case WpCopyByte(t) =>
      var h := s.faults[t];
      var d := s.Content(h.own)[h.done := s.Content(h.orig.frame)[h.done]];
      s.(content := s.content[h.own := d], faults := s.faults[t := h.(done := h.done + 1)])
    case WpInstall(t) =>
      var h := s.faults[t];
      var rest := s.(faults := s.faults - {t});
      if h.loc !in s.ptes || s.ptes[h.loc] != h.orig then rest
      else
        var switched := Install(rest, h.loc, h.own);
        if h.orig.frame == ZERO_PAGE then switched
        else switched.(faults := s.faults[t := Dropping(h.loc.proc, h.orig.frame)])
    case DropRmap(t) =>
      var f := s.faults[t].frame;
      s.(mapcount := s.mapcount[f := s.MapCount(f) - 1], faults := s.faults - {t})
    case Abort(t) => s.(faults := s.faults - {t})
    case Unmap(t, l) =>
      var cleared := s.(ptes := s.ptes - {l});
      if s.ptes[l].frame == ZERO_PAGE then cleared
      else cleared.(faults := s.faults[t := Dropping(l.proc, s.ptes[l].frame)])
    case ForkBegin(p, c) => s.(forking := s.forking[p := c])
    case CopyPte(p, v) =>
      var entry := s.ptes[Loc(p, v)].(write := false);
      var f := entry.frame;
      s.(ptes := s.ptes[Loc(p, v) := entry][Loc(s.forking[p], v) := entry],
         mapcount := if f == ZERO_PAGE then s.mapcount else s.mapcount[f := s.MapCount(f) + 1])
    case ForkEnd(p) => s.(forking := s.forking - {p})
  }

  /** The specification: memory by value, missing pages read as zeroes, and who is being copied. */
  datatype Spec = Spec(memory: map<Loc, Data>, forking: map<nat, nat>) {
    function Peek(l: Loc): Data { if l in memory then memory[l] else Zeroes() }
  }

  /** All memory of p, as the memory of c. */
  function CopyAll(memory: map<Loc, Data>, p: nat, c: nat): map<Loc, Data> {
    (map l | l in memory && l.proc != c :: memory[l]) + (map l | l in memory && l.proc == p :: Loc(c, l.page) := memory[l])
  }

  /** Eager copying: a fork copies all memory at once, nothing is ever shared, and faults do nothing. */
  function SpecNext(m: Spec, a: Action): Spec {
    match a
    case Store(l, off, v) => if off < PAGE_BYTES then m.(memory := m.memory[l := m.Peek(l)[off := v]]) else m
    case Unmap(_, l) => m.(memory := m.memory - {l})
    case ForkBegin(p, c) => m.(forking := m.forking[p := c])
    case ForkEnd(p) => if p in m.forking then Spec(CopyAll(m.memory, p, m.forking[p]), m.forking - {p}) else m
    case _ => m
  }

  /** What a load returns, and nothing for the other steps. */
  function Loaded(s: State, a: Action): seq<int>
    requires Enabled(s, a)
  { if a.Load? then [s.View(a.loc)[a.off]] else [] }

  function SpecLoaded(m: Spec, a: Action): seq<int>
  { if a.Load? && a.off < PAGE_BYTES then [m.Peek(a.loc)[a.off]] else [] }

  ghost predicate Runs(s: State, run: seq<Action>)
    decreases |run|
  { run == [] || (Enabled(s, run[0]) && Runs(Next(s, run[0]), run[1..])) }

  ghost function Final(s: State, run: seq<Action>): State
    requires Runs(s, run)
    decreases |run|
  { if run == [] then s else Final(Next(s, run[0]), run[1..]) }

  ghost function Loads(s: State, run: seq<Action>): seq<int>
    requires Runs(s, run)
    decreases |run|
  { if run == [] then [] else Loaded(s, run[0]) + Loads(Next(s, run[0]), run[1..]) }

  ghost function SpecFinal(m: Spec, run: seq<Action>): Spec
    decreases |run|
  { if run == [] then m else SpecFinal(SpecNext(m, run[0]), run[1..]) }

  ghost function SpecLoads(m: Spec, run: seq<Action>): seq<int>
    decreases |run|
  { if run == [] then [] else SpecLoaded(m, run[0]) + SpecLoads(SpecNext(m, run[0]), run[1..]) }

  // ---- the invariant

  /** Who is counted in a frame's mapcount. */
  ghost function Mappers(ptes: map<Loc, Pte>, f: nat): set<Loc> { set l | l in ptes && ptes[l].frame == f }

  ghost function Droppers(faults: map<nat, Fault>, f: nat): set<nat> { set t | t in faults && faults[t].Dropping? && faults[t].frame == f }

  ghost function Count(s: State, f: nat): nat { |Mappers(s.ptes, f)| + |Droppers(s.faults, f)| }

  ghost predicate Counted(s: State) {
    forall f: nat :: f != ZERO_PAGE ==> s.MapCount(f) == Count(s, f)
  }

  /** A writable entry points to a page that no other entry maps. */
  ghost predicate WritableAlone(s: State) {
    forall l, k :: l in s.ptes && k in s.ptes && s.ptes[l].write && s.ptes[l].frame == s.ptes[k].frame ==> l == k && s.ptes[l].frame != ZERO_PAGE
  }

  /** Nothing else knows the page a fault has allocated. */
  ghost predicate OwnIsUnseen(s: State, t: nat, f: nat) {
    && f != ZERO_PAGE
    && (forall l :: l in s.ptes ==> s.ptes[l].frame != f)
    && (forall u :: u in s.faults && u != t ==> !s.faults[u].Keeps(f))
  }

  ghost predicate OwnUnseen(s: State) {
    forall t, f: nat :: t in s.faults && s.faults[t].HasOwn(f) ==> OwnIsUnseen(s, t, f)
  }

  /** As long as the entry is the one the fault remembers, what it has copied is what the old page holds. */
  ghost predicate Faithful(s: State, h: Fault) {
    match h
    case Anon(_, f) => s.Content(f) == Zeroes()
    case Hold(_, orig) => !orig.write
    case Copying(l, orig, f, done) =>
      && !orig.write && done <= PAGE_BYTES
      && (orig.frame == ZERO_PAGE ==> s.Content(f) == Zeroes() && done == PAGE_BYTES)
      && (l in s.ptes && s.ptes[l] == orig ==> s.Content(f)[..done] == s.Content(orig.frame)[..done])
    case Dropping(_, f) => f != ZERO_PAGE
  }

  ghost predicate CopiesFaithful(s: State) { forall t :: t in s.faults ==> Faithful(s, s.faults[t]) }

  ghost predicate ForksAlone(s: State) {
    forall t, p :: t in s.faults && p in s.forking ==> s.faults[t].Proc() != p && s.faults[t].Proc() != s.forking[p]
  }

  ghost predicate ForksDisjoint(s: State) {
    forall p, q :: p in s.forking && q in s.forking ==> s.forking[p] != q && (p != q ==> s.forking[p] != s.forking[q])
  }

  ghost predicate Inv(s: State) {
    && Counted(s) && WritableAlone(s) && OwnUnseen(s) && CopiesFaithful(s) && ForksAlone(s) && ForksDisjoint(s)
    && s.Content(ZERO_PAGE) == Zeroes()
  }

  /** While a fork goes on, what the child has it shares with the parent, and neither can write it. */
  ghost predicate ForkShares(s: State, p: nat) {
    p in s.forking ==> forall v :: Loc(s.forking[p], v) in s.ptes ==>
      Loc(p, v) in s.ptes && s.ptes[Loc(p, v)] == s.ptes[Loc(s.forking[p], v)] && !s.ptes[Loc(p, v)].write
  }

  ghost predicate ForksShare(s: State) { forall p :: ForkShares(s, p) }

  /** The two machines show every process that runs the same memory. */
  ghost predicate Agree(m: Spec, s: State) { m.forking == s.forking && forall l: Loc :: s.Awake(l.proc) ==> m.Peek(l) == s.View(l) }

  // ---- mapcounts

  lemma MappersSet(ptes: map<Loc, Pte>, l: Loc, e: Pte, f: nat)
    ensures Mappers(ptes[l := e], f) == if e.frame == f then Mappers(ptes, f) + {l} else Mappers(ptes, f) - {l}
    ensures Mappers(ptes - {l}, f) == Mappers(ptes, f) - {l}
    ensures l in Mappers(ptes, f) <==> l in ptes && ptes[l].frame == f
  {
  }

  lemma DroppersSet(faults: map<nat, Fault>, t: nat, p: nat, g: nat, f: nat)
    ensures Droppers(faults[t := Dropping(p, g)], f) == if g == f then Droppers(faults, f) + {t} else Droppers(faults, f) - {t}
    ensures Droppers(faults - {t}, f) == Droppers(faults, f) - {t}
    ensures t in Droppers(faults, f) <==> t in faults && faults[t].Dropping? && faults[t].frame == f
  {
  }

  lemma NoDroppers(s: State, f: nat, t: nat)
    requires OwnUnseen(s) && t in s.faults && s.faults[t].HasOwn(f)
    ensures Droppers(s.faults, f) == {} && Mappers(s.ptes, f) == {}
  {
  }

  /** A fresh page gets its only mapping, in an entry that maps nothing counted. */
  lemma InstallCounts(s: State, t: nat, l: Loc, f: nat, s': State)
    requires Counted(s) && OwnUnseen(s) && t in s.faults && s.faults[t].HasOwn(f)
    requires s'.ptes == s.ptes[l := Pte(f, true)] && s'.faults == s.faults - {t} && s'.mapcount == s.mapcount[f := 1]
    requires l !in s.ptes || s.ptes[l].frame == ZERO_PAGE
    ensures Counted(s')
  {
    NoDroppers(s, f, t);
    forall g: nat | g != ZERO_PAGE
      ensures s'.MapCount(g) == Count(s', g)
    {
      assert s.MapCount(g) == Count(s, g);
      MappersSet(s.ptes, l, Pte(f, true), g);
      DroppersSet(s.faults, t, 0, 0, g);
      hide Mappers, Droppers;
    }
  }

  /** Switching the entry to the copy moves the old page's count from the entry to the fault. */
  lemma SwitchCounts(s: State, t: nat, l: Loc, f: nat, prior: nat, s': State)
    requires Counted(s) && OwnUnseen(s) && t in s.faults && s.faults[t].HasOwn(f) && s.Maps(l, prior) && prior != ZERO_PAGE
    requires s'.ptes == s.ptes[l := Pte(f, true)] && s'.faults == s.faults[t := Dropping(l.proc, prior)] && s'.mapcount == s.mapcount[f := 1]
    ensures Counted(s')
  {
    NoDroppers(s, f, t);
    forall g: nat | g != ZERO_PAGE
      ensures s'.MapCount(g) == Count(s', g)
    {
      SwitchCount(s, t, l, f, prior, s', g);
    }
  }

  lemma SwitchCount(s: State, t: nat, l: Loc, f: nat, prior: nat, s': State, g: nat)
    requires s.MapCount(g) == Count(s, g) && Droppers(s.faults, f) == {} && Mappers(s.ptes, f) == {}
    requires t in s.faults && s.faults[t].HasOwn(f) && s.Maps(l, prior) && prior != ZERO_PAGE
    requires s'.ptes == s.ptes[l := Pte(f, true)] && s'.faults == s.faults[t := Dropping(l.proc, prior)] && s'.mapcount == s.mapcount[f := 1]
    ensures s'.MapCount(g) == Count(s', g)
  {
    MappersSet(s.ptes, l, Pte(f, true), g);
    DroppersSet(s.faults, t, l.proc, prior, g);
    hide Mappers, Droppers;
  }

  /** The same for an entry that is cleared. */
  lemma UnmapCounts(s: State, t: nat, l: Loc, f: nat, s': State)
    requires Counted(s) && t !in s.faults && s.Maps(l, f) && f != ZERO_PAGE
    requires s'.ptes == s.ptes - {l} && s'.faults == s.faults[t := Dropping(l.proc, f)] && s'.mapcount == s.mapcount
    ensures Counted(s')
  {
    forall g: nat | g != ZERO_PAGE
      ensures s'.MapCount(g) == Count(s', g)
    {
      UnmapCount(s, t, l, f, s', g);
    }
  }

  lemma UnmapCount(s: State, t: nat, l: Loc, f: nat, s': State, g: nat)
    requires s.MapCount(g) == Count(s, g) && t !in s.faults && s.Maps(l, f)
    requires s'.ptes == s.ptes - {l} && s'.faults == s.faults[t := Dropping(l.proc, f)] && s'.mapcount == s.mapcount
    ensures s'.MapCount(g) == Count(s', g)
  {
    MappersSet(s.ptes, l, s.ptes[l], g);
    DroppersSet(s.faults, t, l.proc, f, g);
    hide Mappers, Droppers;
  }

  lemma DropCounts(s: State, t: nat, f: nat, s': State)
    requires Counted(s) && t in s.faults && s.faults[t].Dropping? && s.faults[t].frame == f && f != ZERO_PAGE
    requires s'.ptes == s.ptes && s'.faults == s.faults - {t} && s'.mapcount == s.mapcount[f := s.MapCount(f) - 1]
    ensures Counted(s')
  {
    forall g: nat | g != ZERO_PAGE
      ensures s'.MapCount(g) == Count(s', g)
    {
      assert s.MapCount(g) == Count(s, g);
      DroppersSet(s.faults, t, 0, 0, g);
      hide Mappers, Droppers;
    }
  }

  lemma CopyPteCounts(s: State, l: Loc, c: Loc, e: Pte, s': State)
    requires Counted(s) && l in s.ptes && c !in s.ptes && e.frame == s.ptes[l].frame
    requires s'.ptes == s.ptes[l := e][c := e] && s'.faults == s.faults
    requires s'.mapcount == if e.frame == ZERO_PAGE then s.mapcount else s.mapcount[e.frame := s.MapCount(e.frame) + 1]
    ensures Counted(s')
  {
    forall g: nat | g != ZERO_PAGE
      ensures s'.MapCount(g) == Count(s', g)
    {
      assert s.MapCount(g) == Count(s, g);
      MappersSet(s.ptes, l, e, g);
      MappersSet(s.ptes[l := e], c, e, g);
      hide Mappers, Droppers;
    }
  }

  /** Steps that move no holder. */
  lemma QuietCounts(s: State, s': State)
    requires Counted(s) && s'.mapcount == s.mapcount
    requires forall l, f: nat :: f != ZERO_PAGE ==> (s'.Maps(l, f) <==> s.Maps(l, f))
    requires forall t :: t in s'.faults && s'.faults[t].Dropping? ==> t in s.faults && s.faults[t] == s'.faults[t]
    requires forall t :: t in s.faults && s.faults[t].Dropping? ==> t in s'.faults && s'.faults[t] == s.faults[t]
    ensures Counted(s')
  {
    forall g: nat | g != ZERO_PAGE
      ensures s'.MapCount(g) == Count(s', g)
    {
      assert s.MapCount(g) == Count(s, g);
      forall l ensures l in Mappers(s'.ptes, g) <==> l in Mappers(s.ptes, g) {
        assert s'.Maps(l, g) <==> s.Maps(l, g);
      }
      assert Mappers(s'.ptes, g) == Mappers(s.ptes, g) && Droppers(s'.faults, g) == Droppers(s.faults, g);
    }
  }

  predicate MovesHolder(a: Action) { a.AnonInstall? || a.WpInstall? || a.DropRmap? || a.Unmap? || a.CopyPte? }

  lemma QuietNext(s: State, a: Action)
    requires Counted(s) && Enabled(s, a) && !MovesHolder(a)
    ensures Counted(Next(s, a))
  {
    QuietCounts(s, Next(s, a));
  }

  lemma CountedNext(s: State, a: Action)
    requires Inv(s) && Enabled(s, a)
    ensures Counted(Next(s, a))
  {
    assert forall t :: t in s.faults && s.faults[t].Dropping? ==> s.faults[t].frame != ZERO_PAGE;
    hide Counted, WritableAlone, CopiesFaithful, ForksAlone, ForksDisjoint;
    match a
    case AnonInstall(t) => AnonInstallCounts(s, t);
    case WpInstall(t) => WpInstallCounts(s, t);
    case DropRmap(t) => DropCounts(s, t, s.faults[t].frame, Next(s, DropRmap(t)));
    case Unmap(t, l) =>
      if s.ptes[l].frame == ZERO_PAGE { QuietCounts(s, Next(s, Unmap(t, l))); } else { UnmapCounts(s, t, l, s.ptes[l].frame, Next(s, Unmap(t, l))); }
    case CopyPte(p, v) =>
      CopyPteCounts(s, Loc(p, v), Loc(s.forking[p], v), s.ptes[Loc(p, v)].(write := false), Next(s, CopyPte(p, v)));
    case _ => QuietNext(s, a);
  }

  lemma AnonInstallCounts(s: State, t: nat)
    requires Counted(s) && OwnUnseen(s) && Enabled(s, AnonInstall(t))
    ensures Counted(Next(s, AnonInstall(t)))
  {
    hide Counted;
    var h := s.faults[t];
    if h.loc in s.ptes { QuietCounts(s, Next(s, AnonInstall(t))); } else { InstallCounts(s, t, h.loc, h.own, Next(s, AnonInstall(t))); }
  }

  lemma WpInstallCounts(s: State, t: nat)
    requires Counted(s) && OwnUnseen(s) && Enabled(s, WpInstall(t))
    ensures Counted(Next(s, WpInstall(t)))
  {
    hide Counted;
    var h, s' := s.faults[t], Next(s, WpInstall(t));
    if h.loc !in s.ptes || s.ptes[h.loc] != h.orig { QuietCounts(s, s'); }
    else if h.orig.frame == ZERO_PAGE { InstallCounts(s, t, h.loc, h.own, s'); }
    else { SwitchCounts(s, t, h.loc, h.own, h.orig.frame, s'); }
  }

  // ---- the other parts of the invariant

  /** A sole mapper that is counted alone has no rival: the mapcount is lowered only after the entry. */
  lemma ReuseIsSafe(s: State, l: Loc)
    requires Counted(s) && l in s.ptes && s.ptes[l].frame != ZERO_PAGE && s.MapCount(s.ptes[l].frame) == 1
    ensures forall k :: k in s.ptes && s.ptes[k].frame == s.ptes[l].frame ==> k == l
    ensures Droppers(s.faults, s.ptes[l].frame) == {}
  {
    var f := s.ptes[l].frame;
    var m := Mappers(s.ptes, f);
    assert s.MapCount(f) == Count(s, f);
    assert l in m && m - {l} == {} by { assert |m - {l}| == |m| - 1; }
    forall k | k in s.ptes && s.ptes[k].frame == f ensures k == l {
      assert k !in m - {l};
    }
  }

  lemma WritableAfterInstall(s: State, t: nat, l: Loc, s': State)
    requires WritableAlone(s) && OwnUnseen(s) && t in s.faults && (s.faults[t].Anon? || s.faults[t].Copying?)
    requires s'.ptes == s.ptes[l := Pte(s.faults[t].own, true)]
    ensures WritableAlone(s')
  {
    assert s.faults[t].HasOwn(s.faults[t].own) && OwnIsUnseen(s, t, s.faults[t].own);
    hide OwnUnseen;
  }

  lemma WritableAloneNext(s: State, a: Action)
    requires Inv(s) && Enabled(s, a)
    ensures WritableAlone(Next(s, a))
  {
    match a
    case AnonInstall(t) => if s.faults[t].loc !in s.ptes { WritableAfterInstall(s, t, s.faults[t].loc, Next(s, AnonInstall(t))); }
    case WpInstall(t) =>
      if Next(s, WpInstall(t)).ptes != s.ptes { WritableAfterInstall(s, t, s.faults[t].loc, Next(s, WpInstall(t))); }
    case WpReuse(l) => ReuseIsSafe(s, l);
    case _ => WritableKept(s, a);
  }

  lemma WritableKept(s: State, a: Action)
    requires WritableAlone(s) && Enabled(s, a) && !a.AnonInstall? && !a.WpInstall? && !a.WpReuse?
    ensures WritableAlone(Next(s, a))
  {
  }

  lemma OwnUnseenNext(s: State, a: Action)
    requires Inv(s) && Enabled(s, a)
    ensures OwnUnseen(Next(s, a))
  {
    hide Counted, ForksAlone, WritableAlone, CopiesFaithful, ForksDisjoint;
    var s' := Next(s, a);
    forall t, f: nat | t in s'.faults && s'.faults[t].HasOwn(f)
      ensures OwnIsUnseen(s', t, f)
    {
      if a.AnonAlloc? || a.WpAlloc? { OwnAllocated(s, a, t, f); }
      else {
        match a
        case AnonInstall(u) => OwnAfterInstall(s, Next(s, AnonInstall(u)), u, s.faults[u].loc, t, f);
        case WpInstall(u) => OwnAfterInstall(s, Next(s, WpInstall(u)), u, s.faults[u].loc, t, f);
        case _ => OwnKept(s, a, t, f);
      }
    }
  }

  lemma OwnAllocated(s: State, a: Action, t: nat, f: nat)
    requires OwnUnseen(s) && Enabled(s, a) && (a.AnonAlloc? || a.WpAlloc?) && t in Next(s, a).faults && Next(s, a).faults[t].HasOwn(f)
    ensures OwnIsUnseen(Next(s, a), t, f)
  {
    if t in s.faults && s.faults[t].HasOwn(f) {
      assert OwnIsUnseen(s, t, f) && !s.Free(f) by { assert s.faults[t].Keeps(f); }
    }
    if a.WpAlloc? { assert s.faults[a.tid].Keeps(s.faults[a.tid].orig.frame); }
  }

  /** An installed page is not the own page of any fault that is left. */
  lemma OwnAfterInstall(s: State, s': State, u: nat, l: Loc, t: nat, f: nat)
    requires OwnUnseen(s) && t != u && u in s.faults && t in s'.faults && s'.faults[t].HasOwn(f)
    requires s'.ptes == s.ptes || ((s.faults[u].Anon? || s.faults[u].Copying?) && s'.ptes == s.ptes[l := Pte(s.faults[u].own, true)])
    requires forall w :: w in s'.faults && w != u ==> w in s.faults && s'.faults[w] == s.faults[w]
    requires u in s'.faults ==> s'.faults[u].Dropping? && s.faults[u].Keeps(s'.faults[u].frame)
    ensures OwnIsUnseen(s', t, f)
  {
    assert OwnIsUnseen(s, t, f);
    if s'.ptes != s.ptes { assert s.faults[u].Keeps(s.faults[u].own) && s.faults[u].HasOwn(s.faults[u].own); }
    hide OwnUnseen;
  }

  lemma OwnKept(s: State, a: Action, t: nat, f: nat)
    requires OwnUnseen(s) && Enabled(s, a) && !a.AnonAlloc? && !a.WpAlloc? && !a.AnonInstall? && !a.WpInstall?
    requires t in Next(s, a).faults && Next(s, a).faults[t].HasOwn(f)
    ensures OwnIsUnseen(Next(s, a), t, f)
  {
    assert t in s.faults && s.faults[t].HasOwn(f) && OwnIsUnseen(s, t, f);
    hide OwnUnseen;
  }

  lemma ForksAloneNext(s: State, a: Action)
    requires Inv(s) && Enabled(s, a)
    ensures ForksAlone(Next(s, a))
  {
    hide Counted, WritableAlone, OwnUnseen, CopiesFaithful, ForksDisjoint;
  }

  lemma ForkingNext(s: State, a: Action)
    requires Enabled(s, a)
    ensures Next(s, a).forking == match a case ForkBegin(p, c) => s.forking[p := c] case ForkEnd(p) => s.forking - {p} case _ => s.forking
  {
    hide State.MapCount, State.Content, State.Free, State.Readable, State.Quiet, State.Awake, State.WholeCopied, FaultAllowed, Zeroes;
  }

  lemma ForksDisjointNext(s: State, a: Action)
    requires ForksDisjoint(s) && Enabled(s, a)
    ensures ForksDisjoint(Next(s, a))
  {
    ForkingNext(s, a);
    hide Next;
  }

  /** A store goes through a writable entry, so no fault still remembers that page write-protected in
      a live entry, and no fault has it as its own. */
  lemma StoreFaithful(s: State, l: Loc, off: nat, v: int, t: nat)
    requires Inv(s) && Enabled(s, Store(l, off, v)) && t in s.faults
    ensures Faithful(Next(s, Store(l, off, v)), s.faults[t])
  {
    var h := s.faults[t];
    assert Faithful(s, h);
    hide Counted, ForksAlone, ForksDisjoint;
    if h.Anon? || h.Copying? { assert h.HasOwn(h.own); }
  }

  lemma CopyByteFaithful(s: State, t: nat, u: nat)
    requires Inv(s) && Enabled(s, WpCopyByte(t)) && u in s.faults
    ensures Faithful(Next(s, WpCopyByte(t)), Next(s, WpCopyByte(t)).faults[u])
  {
    var h, k := s.faults[t], s.faults[u];
    assert Faithful(s, h) && Faithful(s, k) && h.HasOwn(h.own);
    if k.Anon? || k.Copying? { assert k.HasOwn(k.own) && k.Keeps(k.own) && (k.Copying? ==> k.Keeps(k.orig.frame)); }
    var s' := Next(s, WpCopyByte(t));
    hide Counted, ForksAlone, WritableAlone, ForksDisjoint;
    if u == t && h.loc in s.ptes && s.ptes[h.loc] == h.orig {
      var d, o, n := s.Content(h.own), s.Content(h.orig.frame), h.done;
      assert s'.Content(h.own)[..n + 1] == d[..n] + [o[n]];
      assert o[..n + 1] == o[..n] + [o[n]];
    }
  }

  lemma AllocFaithful(s: State, a: Action, u: nat)
    requires Inv(s) && Enabled(s, a) && (a.AnonAlloc? || a.WpAlloc?) && u in Next(s, a).faults
    ensures Faithful(Next(s, a), Next(s, a).faults[u])
  {
    if u in s.faults {
      var k := s.faults[u];
      assert Faithful(s, k);
      assert !k.Keeps(a.own);
    }
    hide Counted, ForksAlone, WritableAlone, ForksDisjoint;
  }

  /** No step brings a write-protected entry back under a fault: only a fork write-protects, and it
      waits for the faults of its process. */
  lemma NoReturn(s: State, a: Action, t: nat)
    requires Inv(s) && Enabled(s, a) && t in s.faults && s.faults[t].Copying? && s.faults[t].orig.frame != ZERO_PAGE
    ensures var l, orig := s.faults[t].loc, s.faults[t].orig;
      l in Next(s, a).ptes && Next(s, a).ptes[l] == orig ==> l in s.ptes && s.ptes[l] == orig
  {
    assert Faithful(s, s.faults[t]);
    hide Counted, WritableAlone, OwnUnseen, ForksDisjoint;
  }

  predicate ChangesContent(a: Action) { a.Store? || a.WpCopyByte? || a.AnonAlloc? || a.WpAlloc? }

  lemma FaithfulFrame(s: State, s': State, h: Fault)
    requires Faithful(s, h) && s'.content == s.content && s.Content(ZERO_PAGE) == Zeroes()
    requires h.Copying? && h.orig.frame != ZERO_PAGE && h.loc in s'.ptes && s'.ptes[h.loc] == h.orig
      ==> h.loc in s.ptes && s.ptes[h.loc] == h.orig
    ensures Faithful(s', h)
  {
  }

  lemma NewFaultFaithful(s: State, a: Action, u: nat)
    requires CopiesFaithful(s) && Enabled(s, a) && !ChangesContent(a) && u in Next(s, a).faults
    ensures (u in s.faults && Next(s, a).faults[u] == s.faults[u]) || Faithful(Next(s, a), Next(s, a).faults[u])
  {
    hide CopiesFaithful;
  }

  lemma FaultKeepsContent(s: State, a: Action)
    requires Enabled(s, a) && (a.AnonInstall? || a.WpReuse? || a.WpHold? || a.WpInstall? || a.DropRmap? || a.Abort?)
    ensures Next(s, a).content == s.content
  {
    hide State.MapCount, State.Content, State.Free, State.Readable, State.Quiet, State.Awake, State.WholeCopied, FaultAllowed, Zeroes;
  }

  lemma ContentKept(s: State, a: Action)
    requires Enabled(s, a) && !ChangesContent(a)
    ensures Next(s, a).content == s.content
  {
    hide State.MapCount, State.Content, State.Free, State.Readable, State.Quiet, State.Awake, State.WholeCopied, FaultAllowed, Zeroes;
    if a.AnonInstall? || a.WpReuse? || a.WpHold? || a.WpInstall? || a.DropRmap? || a.Abort? { FaultKeepsContent(s, a); }
  }

  lemma OtherFaithful(s: State, a: Action, u: nat)
    requires Inv(s) && Enabled(s, a) && !ChangesContent(a) && u in Next(s, a).faults
    ensures Faithful(Next(s, a), Next(s, a).faults[u])
  {
    NewFaultFaithful(s, a, u);
    ContentKept(s, a);
    if u in s.faults && Next(s, a).faults[u] == s.faults[u] {
      if s.faults[u].Copying? && s.faults[u].orig.frame != ZERO_PAGE { NoReturn(s, a, u); }
      FaithfulFrame(s, Next(s, a), s.faults[u]);
    }
  }

  lemma CopiesFaithfulNext(s: State, a: Action)
    requires Inv(s) && Enabled(s, a)
    ensures CopiesFaithful(Next(s, a))
  {
    var s' := Next(s, a);
    forall u | u in s'.faults
      ensures Faithful(s', s'.faults[u])
    {
      match a
      case Store(l, off, v) => StoreFaithful(s, l, off, v, u);
      case WpCopyByte(t) => CopyByteFaithful(s, t, u);
      case AnonAlloc(_, _, _) => AllocFaithful(s, a, u);
      case WpAlloc(_, _) => AllocFaithful(s, a, u);
      case _ => OtherFaithful(s, a, u);
    }
  }

  lemma ZeroPageNext(s: State, a: Action)
    requires Inv(s) && Enabled(s, a)
    ensures Next(s, a).Content(ZERO_PAGE) == Zeroes()
  {
    if a.WpCopyByte? { assert s.faults[a.tid].HasOwn(s.faults[a.tid].own); }
    hide Counted, ForksAlone, CopiesFaithful, ForksDisjoint;
  }

  lemma InvNext(s: State, a: Action)
    requires Inv(s) && Enabled(s, a)
    ensures Inv(Next(s, a))
  {
    CountedNext(s, a);
    WritableAloneNext(s, a);
    OwnUnseenNext(s, a);
    CopiesFaithfulNext(s, a);
    ForksAloneNext(s, a);
    ForksDisjointNext(s, a);
    ZeroPageNext(s, a);
  }

  // ---- the refinement

  /** What one step does to what a process sees: exactly what the specification does. */
  lemma ViewNext(s: State, a: Action, k: Loc)
    requires Inv(s) && Enabled(s, a)
    ensures Next(s, a).View(k) ==
      match a
      case Store(l, off, v) => if k == l then s.View(k)[off := v] else s.View(k)
      case Unmap(_, l) => if k == l then Zeroes() else s.View(k)
      case CopyPte(p, v) => if k == Loc(s.forking[p], v) then s.View(Loc(p, v)) else s.View(k)
      case _ => s.View(k)
  {
    match a
    case AnonInstall(t) => InstallView(s, t, k);
    case WpInstall(t) => SwitchView(s, t, k);
    case WpCopyByte(t) => assert s.faults[t].HasOwn(s.faults[t].own);
    case _ => assert WritableAlone(s); OtherView(s, a, k);
  }

  lemma InstallView(s: State, t: nat, k: Loc)
    requires CopiesFaithful(s) && OwnUnseen(s) && Enabled(s, AnonInstall(t))
    ensures Next(s, AnonInstall(t)).View(k) == s.View(k)
  {
    assert Faithful(s, s.faults[t]);
  }

  /** The copy that is switched in holds what the old page holds now. */
  lemma SwitchView(s: State, t: nat, k: Loc)
    requires CopiesFaithful(s) && s.Content(ZERO_PAGE) == Zeroes() && Enabled(s, WpInstall(t))
    ensures Next(s, WpInstall(t)).View(k) == s.View(k)
  {
    var h := s.faults[t];
    assert Faithful(s, h);
    if h.loc in s.ptes && s.ptes[h.loc] == h.orig {
      var o, n := s.Content(h.orig.frame), s.Content(h.own);
      assert o[..PAGE_BYTES] == o && n[..PAGE_BYTES] == n;
    }
  }

  /** Two entries of one frame see the same data; a writable one has no second. */
  lemma OtherView(s: State, a: Action, k: Loc)
    requires WritableAlone(s) && OwnUnseen(s) && s.Content(ZERO_PAGE) == Zeroes() && Enabled(s, a)
    requires !a.AnonInstall? && !a.WpInstall? && !a.WpCopyByte?
    ensures Next(s, a).View(k) ==
      match a
      case Store(l, off, v) => if k == l then s.View(k)[off := v] else s.View(k)
      case Unmap(_, l) => if k == l then Zeroes() else s.View(k)
      case CopyPte(p, v) => if k == Loc(s.forking[p], v) then s.View(Loc(p, v)) else s.View(k)
      case _ => s.View(k)
  {
    hide OwnUnseen;
  }

  /** Until a fork ends nobody but the fork itself touches the entries of parent and child. */
  lemma ForkShareNext(s: State, a: Action, p: nat)
    requires Inv(s) && ForkShares(s, p) && Enabled(s, a)
    ensures ForkShares(Next(s, a), p)
  {
    ForkingNext(s, a);
    var s' := Next(s, a);
    assert ForksAlone(s) && ForksDisjoint(s);
    hide Counted, WritableAlone, OwnUnseen, CopiesFaithful, State.MapCount, State.Content, State.Free, State.Quiet;
    if p in s'.forking && p in s.forking {
      EntriesNext(s, a, p);
    }
  }

  /** The entries of a process whose fork goes on. */
  lemma EntriesNext(s: State, a: Action, p: nat)
    requires ForksAlone(s) && ForksDisjoint(s) && Enabled(s, a) && p in s.forking && !(a.ForkBegin? && a.proc == p)
    ensures var s', c := Next(s, a), s.forking[p];
      forall l: Loc :: l.proc == p || l.proc == c ==>
        if a.CopyPte? && a.proc == p && l.page == a.page then l in s'.ptes && s'.ptes[l] == s.ptes[Loc(p, l.page)].(write := false)
        else (l in s'.ptes <==> l in s.ptes) && (l in s.ptes ==> s'.ptes[l] == s.ptes[l])
  {
    hide State.MapCount, State.Content, State.Free, State.Quiet;
  }

  lemma ForksShareNext(s: State, a: Action)
    requires Inv(s) && ForksShare(s) && Enabled(s, a)
    ensures ForksShare(Next(s, a))
  {
    forall p
      ensures ForkShares(Next(s, a), p)
    {
      ForkShareNext(s, a, p);
    }
  }

  /** When a fork ends the child sees what the parent sees, in every page. */
  lemma ForkIsWhole(s: State, p: nat, v: nat)
    requires ForksShare(s) && Enabled(s, ForkEnd(p))
    ensures s.View(Loc(s.forking[p], v)) == s.View(Loc(p, v))
  {
    assert ForkShares(s, p);
    assert Loc(p, v) in s.ptes ==> Loc(s.forking[p], v) in s.ptes;
  }

  lemma CopyAllMeaning(m: Spec, p: nat, c: nat, l: Loc)
    requires p != c
    ensures Spec(CopyAll(m.memory, p, c), m.forking - {p}).Peek(l) == m.Peek(if l.proc == c then Loc(p, l.page) else l)
  {
    if l.proc == c {
      assert l in CopyAll(m.memory, p, c) <==> Loc(p, l.page) in m.memory;
    } else {
      assert l in CopyAll(m.memory, p, c) <==> l in m.memory;
    }
  }

  lemma AgreeAtEnd(m: Spec, s: State, p: nat, l: Loc)
    requires ForksDisjoint(s) && ForksShare(s) && Agree(m, s) && Enabled(s, ForkEnd(p)) && Next(s, ForkEnd(p)).Awake(l.proc)
    ensures SpecNext(m, ForkEnd(p)).Peek(l) == Next(s, ForkEnd(p)).View(l)
  {
    hide ForksShare, State.View, State.WholeCopied, CopyAll, Spec.Peek;
    var c := s.forking[p];
    var from := if l.proc == c then Loc(p, l.page) else l;
    CopyAllMeaning(m, p, c, l);
    EndedView(s, p, l);
    AwakeAtEnd(s, p, l.proc);
    if l.proc == c { ForkIsWhole(s, p, l.page); }
    assert m.Peek(from) == s.View(from);
  }

  lemma EndedView(s: State, p: nat, l: Loc)
    requires Enabled(s, ForkEnd(p))
    ensures Next(s, ForkEnd(p)).View(l) == s.View(l)
  {
  }

  /** Who runs when a fork has ended ran before, unless it is the child; the parent did. */
  lemma AwakeAtEnd(s: State, p: nat, q: nat)
    requires ForksDisjoint(s) && Enabled(s, ForkEnd(p)) && Next(s, ForkEnd(p)).Awake(q)
    ensures s.Awake(p) && (q != s.forking[p] ==> s.Awake(q))
  {
    forall r | r in s.forking && q != s.forking[p]
      ensures s.forking[r] != q
    {
      assert r != p ==> r in s.forking - {p};
    }
  }

  /** A step that is not the end of a fork. */
  lemma AgreeBefore(m: Spec, s: State, a: Action, l: Loc)
    requires Inv(s) && Agree(m, s) && Enabled(s, a) && !a.ForkEnd? && Next(s, a).Awake(l.proc)
    ensures SpecNext(m, a).Peek(l) == Next(s, a).View(l)
  {
    ForkingNext(s, a);
    AwakeBefore(s, a, l.proc);
    assert m.Peek(l) == s.View(l);
    ViewNext(s, a, l);
    hide Inv, Next, State.View;
    assert a.CopyPte? ==> l.proc != s.forking[a.proc];
  }

  lemma AwakeBefore(s: State, a: Action, p: nat)
    requires Enabled(s, a) && !a.ForkEnd? && Next(s, a).Awake(p)
    ensures s.Awake(p) && (a.CopyPte? ==> p != s.forking[a.proc])
  {
    ForkingNext(s, a);
    hide Next;
    forall q | q in s.forking
      ensures s.forking[q] != p
    {
      assert q in Next(s, a).forking;
      assert a.ForkBegin? && a.proc == q ==> !s.Readable(q);
    }
  }

  lemma AgreeNext(m: Spec, s: State, a: Action)
    requires Inv(s) && ForksShare(s) && Agree(m, s) && Enabled(s, a)
    ensures Agree(SpecNext(m, a), Next(s, a)) && SpecLoaded(m, a) == Loaded(s, a)
  {
    ForkingNext(s, a);
    forall l: Loc | Next(s, a).Awake(l.proc)
      ensures SpecNext(m, a).Peek(l) == Next(s, a).View(l)
    {
      if a.ForkEnd? { AgreeAtEnd(m, s, a.proc, l); } else { AgreeBefore(m, s, a, l); }
    }
    if a.Load? { assert m.Peek(a.loc) == s.View(a.loc); }
    hide Inv, ForksShare, Next;
  }

  /** Lazy copy-on-write refines eager copying: in every interleaving of loads, stores, the steps of
      faults, forks and unmaps, every load returns what it returns when a fork copies all memory at once. */
  lemma {:induction false} LazyRefinesEager(m: Spec, s: State, run: seq<Action>)
    requires Inv(s) && ForksShare(s) && Agree(m, s) && Runs(s, run)
    ensures Loads(s, run) == SpecLoads(m, run)
    ensures Inv(Final(s, run)) && ForksShare(Final(s, run)) && Agree(SpecFinal(m, run), Final(s, run))
    decreases |run|
  {
    hide Inv, ForksShare, Agree, Enabled, Next;
    if run != [] {
      InvNext(s, run[0]);
      ForksShareNext(s, run[0]);
      AgreeNext(m, s, run[0]);
      LazyRefinesEager(SpecNext(m, run[0]), Next(s, run[0]), run[1..]);
    }
  }

  /** A fault that wins lets the access go on that it was taken for. */
  lemma FaultResolves(s: State, a: Action, off: nat, value: int)
    requires Inv(s) && Enabled(s, a) && off < PAGE_BYTES
    ensures a.ReadFault? || a.WpReuse? ==> Enabled(Next(s, a), Load(a.loc, off))
    ensures a.WpReuse? ==> Enabled(Next(s, a), Store(a.loc, off, value))
    ensures a.AnonInstall? || a.WpInstall? ==>
      var h := s.faults[a.tid];
      ((if h.Anon? then h.loc !in s.ptes else h.loc in s.ptes && s.ptes[h.loc] == h.orig) ==> Enabled(Next(s, a), Store(h.loc, off, value)))
  {
  }

  /** The steps of thread t on a fault at l. */
  predicate OfFault(a: Action, t: nat, l: Loc) {
    match a
    case AnonAlloc(u, k, _) => u == t && k == l
    case AnonInstall(u) => u == t
    case WpReuse(k) => k == l
    case WpHold(u, k) => u == t && k == l
    case WpAlloc(u, _) => u == t
    case WpCopyByte(u) => u == t
    case WpInstall(u) => u == t
    case _ => false
  }

  ghost predicate Resolves(s: State, run: seq<Action>, t: nat, l: Loc) {
    && Runs(s, run) && (forall a :: a in run ==> OfFault(a, t, l))
    && forall off, value {:trigger Store(l, off, value)} :: 0 <= off < PAGE_BYTES ==> Enabled(Final(s, run), Store(l, off, value))
  }

  lemma ResolvesFirst(s: State, a: Action, rest: seq<Action>, t: nat, l: Loc)
    requires Enabled(s, a) && OfFault(a, t, l) && Resolves(Next(s, a), rest, t, l)
    ensures Resolves(s, [a] + rest, t, l)
  {
    hide Enabled, Next, OfFault;
    assert ([a] + rest)[1..] == rest;
  }

  lemma ResolvedNow(s: State, t: nat, l: Loc)
    requires l in s.ptes && s.ptes[l].write && s.Awake(l.proc)
    ensures Resolves(s, [], t, l)
  {
  }

  /** Every write fault can win: whatever else has happened, a thread that may take a fault at a page that
      is missing or read-only can, by its own steps alone, no more than a page has bytes and three, make
      the store possible; it needs one free page. */
  lemma FaultWins(s: State, t: nat, l: Loc, f: nat) returns (run: seq<Action>)
    requires FaultAllowed(s, t, l) && s.Free(f) && (l in s.ptes ==> !s.ptes[l].write)
    ensures Resolves(s, run, t, l) && |run| <= PAGE_BYTES + 3
  {
    if l !in s.ptes {
      var a, b := AnonAlloc(t, l, f), AnonInstall(t);
      var s1 := Next(s, a);
      ResolvedNow(Next(s1, b), t, l);
      ResolvesFirst(s1, b, [], t, l);
      ResolvesFirst(s, a, [b] + [], t, l);
      run := [a] + ([b] + []);
    } else if s.ptes[l].frame != ZERO_PAGE && s.MapCount(s.ptes[l].frame) == 1 {
      var a := WpReuse(l);
      ResolvedNow(Next(s, a), t, l);
      ResolvesFirst(s, a, [], t, l);
      run := [a] + [];
    } else {
      run := CopyWins(s, t, l, f);
    }
  }

  lemma CopyWins(s: State, t: nat, l: Loc, f: nat) returns (run: seq<Action>)
    requires FaultAllowed(s, t, l) && s.Free(f) && Enabled(s, WpHold(t, l))
    ensures Resolves(s, run, t, l) && |run| <= PAGE_BYTES + 3
  {
    var a, b := WpHold(t, l), WpAlloc(t, f);
    var s1 := Next(s, a);
    var s2 := Next(s1, b);
    var rest := CopyEnds(s2, t);
    ResolvesFirst(s1, b, rest, t, l);
    ResolvesFirst(s, a, [b] + rest, t, l);
    run := [a] + ([b] + rest);
  }

  /** From any point of the copying. */
  lemma {:induction false} CopyEnds(s: State, t: nat) returns (run: seq<Action>)
    requires t in s.faults && s.faults[t].Copying? && s.faults[t].done <= PAGE_BYTES && s.Readable(s.faults[t].loc.proc)
    requires s.faults[t].loc in s.ptes && s.ptes[s.faults[t].loc] == s.faults[t].orig
    ensures Resolves(s, run, t, s.faults[t].loc) && |run| == PAGE_BYTES - s.faults[t].done + 1
    decreases PAGE_BYTES - s.faults[t].done
  {
    var l := s.faults[t].loc;
    if s.faults[t].done == PAGE_BYTES {
      var b := WpInstall(t);
      ResolvedNow(Next(s, b), t, l);
      ResolvesFirst(s, b, [], t, l);
      run := [b] + [];
    } else {
      var b := WpCopyByte(t);
      var rest := CopyEnds(Next(s, b), t);
      ResolvesFirst(s, b, rest, t, l);
      run := [b] + rest;
    }
  }

  /** A copy comes nearer to its end with each byte that it copies, and by no other step further away. */
  lemma CopyProgress(s: State, a: Action, t: nat)
    requires Enabled(s, a) && t in s.faults && s.faults[t].Copying? && t in Next(s, a).faults && Next(s, a).faults[t].Copying?
    ensures Next(s, a).faults[t] == s.faults[t].(done := s.faults[t].done + if a == WpCopyByte(t) then 1 else 0)
  {
    hide State.MapCount, State.Content, State.Free, State.Readable, State.Quiet, State.WholeCopied, Zeroes;
  }

  /** The pages of p that its fork has still to copy. */
  ghost function Uncopied(s: State, p: nat): set<Loc>
    requires p in s.forking
  { set l | l in s.ptes && l.proc == p && Loc(s.forking[p], l.page) !in s.ptes }

  /** Every fork can end: copying what is left, one page a step, is enough. */
  lemma {:induction false} ForkCanEnd(s: State, p: nat) returns (run: seq<Action>)
    requires p in s.forking && s.forking[p] != p
    ensures Runs(s, run) && |run| == |Uncopied(s, p)| && (forall a :: a in run ==> a.CopyPte? && a.proc == p)
    ensures Enabled(Final(s, run), ForkEnd(p))
    decreases |Uncopied(s, p)|
  {
    if Uncopied(s, p) == {} {
      assert forall l :: l in s.ptes && l.proc == p ==> l !in Uncopied(s, p);
      run := [];
    } else {
      var l :| l in Uncopied(s, p);
      var a := CopyPte(p, l.page);
      UncopiedFalls(s, p, l);
      var rest := ForkCanEnd(Next(s, a), p);
      run := [a] + rest;
      assert run[1..] == rest;
    }
  }

  lemma UncopiedFalls(s: State, p: nat, l: Loc)
    requires p in s.forking && s.forking[p] != p && l in Uncopied(s, p)
    ensures Enabled(s, CopyPte(p, l.page)) && Next(s, CopyPte(p, l.page)).forking == s.forking
    ensures |Uncopied(Next(s, CopyPte(p, l.page)), p)| == |Uncopied(s, p)| - 1
  {
    assert l == Loc(p, l.page);
    assert Uncopied(Next(s, CopyPte(p, l.page)), p) == Uncopied(s, p) - {l};
  }

  /** The machines start without memory. */
  lemma InitiallyAgree()
    ensures Inv(State(map[], map[], map[], map[], map[])) && ForksShare(State(map[], map[], map[], map[], map[])) && Agree(Spec(map[], map[]), State(map[], map[], map[], map[], map[]))
  {
    var s := State(map[], map[], map[], map[], map[]);
    forall f: nat ensures s.MapCount(f) == Count(s, f) {
      assert Mappers(s.ptes, f) == {} && Droppers(s.faults, f) == {};
    }
  }

  /** The steps that may be taken while a fork of p runs, if p does not store. */
  predicate LeavesAlone(a: Action, p: nat) {
    match a
    case Store(l, _, _) => l.proc != p
    case ForkEnd(q) => q != p
    case _ => true
  }

  /** A fork copies: if the parent does not store meanwhile, then when the fork ends the child sees in
      every page what the parent saw when it began, and so does the parent, whatever else happens. */
  lemma ForkCopies(s: State, p: nat, c: nat, run: seq<Action>, v: nat)
    requires Inv(s) && ForksShare(s) && Enabled(s, ForkBegin(p, c)) && Runs(Next(s, ForkBegin(p, c)), run)
    requires forall a :: a in run ==> LeavesAlone(a, p)
    requires Enabled(Final(Next(s, ForkBegin(p, c)), run), ForkEnd(p))
    ensures var end := Next(Final(Next(s, ForkBegin(p, c)), run), ForkEnd(p));
      end.View(Loc(c, v)) == s.View(Loc(p, v)) == end.View(Loc(p, v))
  {
    var begun := Next(s, ForkBegin(p, c));
    InvNext(s, ForkBegin(p, c));
    ForksShareNext(s, ForkBegin(p, c));
    ParentKeeps(begun, run, p, v);
    ForkIsWhole(Final(begun, run), p, v);
  }

  /** Until its fork ends, what a process sees changes only by its own stores. */
  lemma {:induction false} ParentKeeps(s: State, run: seq<Action>, p: nat, v: nat)
    requires Inv(s) && ForksShare(s) && Runs(s, run) && p in s.forking && forall a :: a in run ==> LeavesAlone(a, p)
    ensures var t := Final(s, run);
      Inv(t) && ForksShare(t) && p in t.forking && t.forking[p] == s.forking[p] && t.View(Loc(p, v)) == s.View(Loc(p, v))
    decreases |run|
  {
    if run != [] {
      var a, rest := run[0], run[1..];
      assert run == [a] + rest;
      InvNext(s, a);
      ForksShareNext(s, a);
      ForkStep(s, a, p, v);
      hide Inv, ForksShare, Enabled, Next;
      ParentKeeps(Next(s, a), rest, p, v);
    }
  }

  lemma ForkStep(s: State, a: Action, p: nat, v: nat)
    requires Inv(s) && Enabled(s, a) && p in s.forking && LeavesAlone(a, p)
    ensures var s' := Next(s, a); p in s'.forking && s'.forking[p] == s.forking[p] && s'.View(Loc(p, v)) == s.View(Loc(p, v))
  {
    ForkingNext(s, a);
    ViewNext(s, a, Loc(p, v));
    assert ForksDisjoint(s);
    hide Next, WritableAlone, CopiesFaithful, OwnUnseen, Counted;
  }
}
