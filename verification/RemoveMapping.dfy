/** __remove_mapping beside users of the page: taking the last two references away before looking at
    the dirty flag loses no write; looking first may.  The reclaimer holds the page lock, so nobody
    writes the page back meanwhile. */
module RemoveMapping {

  /** A user has no reference, has one, has written through it, or has also marked the page dirty. */
  datatype User = Away | Holding | Written | Flagged

  /** The order of the two tests: the code's, and the other one. */
  datatype Order = FreezeFirst | DirtyFirst

  datatype Reclaim = Ready | Frozen | SeenClean | Detached | Failed

  datatype State = State(
    order: Order,
    count: int,
    dirty: bool,
    cached: bool,         // still in the page cache or swap cache
    memory: int,          // what the page holds
    disk: int,            // what its backing store holds
    users: seq<User>,
    reclaim: Reclaim)

  datatype Action =
    | Get(u: nat)               // get_user_pages or a speculative lookup
    | Write(u: nat, data: int)
    | SetDirty(u: nat)          // SetPageDirty, not under the tree lock
    | Put(u: nat)
    | Freeze                    // page_freeze_refs(page, 2)
    | TestDirty

  predicate Enabled(s: State, act: Action) {
    match act
    case Get(u) => u < |s.users| && s.users[u].Away? && 0 < s.count && s.cached
    case Write(u, _) => u < |s.users| && !s.users[u].Away?
    case SetDirty(u) => u < |s.users| && s.users[u].Written?
    case Put(u) => u < |s.users| && (s.users[u].Holding? || s.users[u].Flagged?)
    case Freeze => if s.order.FreezeFirst? then s.reclaim.Ready? else s.reclaim.SeenClean?
    case TestDirty => if s.order.FreezeFirst? then s.reclaim.Frozen? else s.reclaim.Ready?
  }

  function Next(s: State, act: Action): State
    requires Enabled(s, act)
  {
    match act
    case Get(u) => s.(count := s.count + 1, users := s.users[u := Holding])
    case Write(u, data) => s.(memory := data, users := s.users[u := Written])
    case SetDirty(u) => s.(dirty := true, users := s.users[u := Flagged])
    case Put(u) => s.(count := s.count - 1, users := s.users[u := Away])
    case Freeze =>
      if s.count != 2 then s.(reclaim := Failed)
      else if s.order.FreezeFirst? then s.(count := 0, reclaim := Frozen)
      else s.(count := 0, cached := false, reclaim := Detached)
    case TestDirty =>
      if s.order.FreezeFirst? then
        if s.dirty then s.(count := 2, reclaim := Failed) else s.(cached := false, reclaim := Detached)
      else
        if s.dirty then s.(reclaim := Failed) else s.(reclaim := SeenClean)
  }

  /** How many users hold a reference. */
  function Holders(users: seq<User>): nat {
    if users == [] then 0 else Holders(users[..|users| - 1]) + (if users[|users| - 1].Away? then 0 else 1)
  }

  lemma {:induction false} HoldersUpdate(users: seq<User>, u: nat, x: User)
    requires u < |users|
    ensures Holders(users[u := x]) == Holders(users) - (if users[u].Away? then 0 else 1) + (if x.Away? then 0 else 1)
  {
    var n := |users| - 1;
    if u < n {
      HoldersUpdate(users[..n], u, x);
      assert users[u := x][..n] == users[..n][u := x];
    } else {
      assert users[u := x][..n] == users[..n];
    }
  }

  lemma {:induction false} NoHolders(users: seq<User>)
    requires Holders(users) == 0
    ensures forall u :: 0 <= u < |users| ==> users[u].Away?
  {
    if users != [] { NoHolders(users[..|users| - 1]); }
  }

  lemma {:induction false} AllAway(users: seq<User>)
    requires forall u :: 0 <= u < |users| ==> users[u].Away?
    ensures Holders(users) == 0
  {
    if users != [] { AllAway(users[..|users| - 1]); }
  }

  predicate Gone(s: State) { s.reclaim.Frozen? || s.reclaim.Detached? }

  ghost predicate Inv(s: State) {
    && s.order.FreezeFirst? && !s.reclaim.SeenClean?
    && s.cached == !s.reclaim.Detached?
    // the isolation, the cache, and the users
    && s.count == (if Gone(s) then 0 else 2 + Holders(s.users))
    && (Gone(s) ==> Holders(s.users) == 0)
    // a write that has not reached the disk is marked, or is about to be
    && (s.memory != s.disk ==> s.dirty || exists u :: 0 <= u < |s.users| && s.users[u].Written?)
    && (s.reclaim.Detached? ==> !s.dirty)
  }

  ghost predicate Start(s: State, order: Order) {
    && s.order == order && s.reclaim.Ready? && s.cached && (s.memory != s.disk ==> s.dirty)
    && s.count == 2 + Holders(s.users) && (forall u :: 0 <= u < |s.users| ==> !s.users[u].Written?)
  }

  lemma InvNext(s: State, act: Action)
    requires Inv(s) && Enabled(s, act)
    ensures Inv(Next(s, act))
  {
    var s' := Next(s, act);
    if !act.Freeze? && !act.TestDirty? {
      HoldersUpdate(s.users, act.u, s'.users[act.u]);
      if Gone(s) { NoHolders(s.users); }
      if s.memory != s.disk && !s.dirty && !act.Write? {
        var u :| 0 <= u < |s.users| && s.users[u].Written?;
        assert u == act.u || s'.users[u].Written?;
      }
      if act.Write? { assert s'.users[act.u].Written?; }
    }
  }

  /** The reclaimer is never held up, and if nobody comes between its two steps, the page is detached
      exactly if no user holds it and it is not dirty; otherwise nothing about the page has changed. */
  lemma GoesIfUnusedAndClean(s: State)
    requires Inv(s) && s.reclaim.Ready?
    ensures Enabled(s, Freeze)
    ensures var s1 := Next(s, Freeze);
      if exists u :: 0 <= u < |s.users| && !s.users[u].Away? then s1 == s.(reclaim := Failed)
      else Enabled(s1, TestDirty) &&
           Next(s1, TestDirty) == (if s.dirty then s.(reclaim := Failed) else s.(count := 0, cached := false, reclaim := Detached))
  {
    if exists u :: 0 <= u < |s.users| && !s.users[u].Away? {
      if Holders(s.users) == 0 { NoHolders(s.users); }
    } else {
      AllAway(s.users);
    }
  }

  /** Once its references are frozen, nobody can get at the page before the dirty test. */
  lemma FrozenIsClosed(s: State, act: Action)
    requires Inv(s) && s.reclaim.Frozen? && Enabled(s, act)
    ensures act.TestDirty?
  {
    NoHolders(s.users);
  }

  ghost predicate IsRun(states: seq<State>, acts: seq<Action>) {
    && |states| == |acts| + 1
    && (forall i :: 0 <= i < |acts| ==> Enabled(states[i], acts[i]) && states[i + 1] == Next(states[i], acts[i]))
  }

  lemma {:induction false} InvAlways(states: seq<State>, acts: seq<Action>, n: nat)
    requires IsRun(states, acts) && n <= |acts| && Start(states[0], FreezeFirst)
    ensures Inv(states[n])
  {
    if n > 0 {
      InvAlways(states, acts, n - 1);
      InvNext(states[n - 1], acts[n - 1]);
    }
  }

  /** No lost write: in every interleaving, a page that has been detached holds what its backing store
      holds, and nobody has a reference through which it could still be written. */
  lemma NoLostWrite(states: seq<State>, acts: seq<Action>, n: nat)
    requires IsRun(states, acts) && n <= |acts| && Start(states[0], FreezeFirst) && states[n].reclaim.Detached?
    ensures states[n].memory == states[n].disk && !states[n].dirty && states[n].count == 0
    ensures forall u :: 0 <= u < |states[n].users| ==> states[n].users[u].Away?
  {
    InvAlways(states, acts, n);
    NoHolders(states[n].users);
  }

  /** A failed attempt leaves the page with the references of the isolation, the cache and the users. */
  lemma FailureRestores(states: seq<State>, acts: seq<Action>, n: nat)
    requires IsRun(states, acts) && n <= |acts| && Start(states[0], FreezeFirst) && states[n].reclaim.Failed?
    ensures states[n].cached && states[n].count == 2 + Holders(states[n].users)
  {
    InvAlways(states, acts, n);
  }

  /** With the tests the other way round a user can write, mark the page and leave between them. */
  lemma OtherOrderLoses() returns (states: seq<State>, acts: seq<Action>)
    ensures IsRun(states, acts) && Start(states[0], DirtyFirst)
    ensures var s := states[|acts|]; s.reclaim.Detached? && s.memory != s.disk
  {
    var s0 := State(DirtyFirst, 3, false, true, 0, 0, [Holding], Ready);
    acts := [TestDirty, Write(0, 1), SetDirty(0), Put(0), Freeze];
    assert Holders([Holding]) == 1 by { assert [Holding][..0] == []; }
    var s1 := Next(s0, acts[0]);
    var s2 := Next(s1, acts[1]);
    var s3 := Next(s2, acts[2]);
    var s4 := Next(s3, acts[3]);
    var s5 := Next(s4, acts[4]);
    states := [s0, s1, s2, s3, s4, s5];
  }
}
