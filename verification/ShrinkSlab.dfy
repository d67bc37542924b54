/** do_shrink_slab: the work that a call takes from nr_deferred, adds to, does part of, and puts back,
    alone and beside any number of other calls on the same counter. */
module ShrinkSlab {
  import opened Arith

  const SHRINK_BATCH: int := 128
  const WORD: int := 0x1_0000_0000_0000_0000
  const LONG: int := 0x8000_0000_0000_0000

  /** What a 64-bit signed integer holds of x. */
  function ToLong(x: int): (r: int)
    ensures -LONG <= r < LONG
    ensures -LONG <= x < LONG ==> r == x
  { (x + LONG) % WORD - LONG }

  /** How often x wraps around. */
  function Wraps(x: int): int { (x + LONG) / WORD }

  lemma ToLongWraps(x: int)
    ensures ToLong(x) == x - WORD * Wraps(x)
  {
  }

  ghost predicate Congruent(a: int, b: int) { (a - b) % WORD == 0 }

  /** What count_objects and the shrinker say: at least one object, fewer than a signed word holds twice. */
  predicate Sane(freeable: int, batch: int) { 0 < freeable < LONG / 2 && 0 < batch < LONG }

  function BatchSize(batch: int): int { if batch != 0 then batch else SHRINK_BATCH }

  /** total_scan has become negative. */
  predicate Overflows(nr: int, delta: int) { ToLong(nr + delta) < 0 }

  /** total_scan before it is limited. */
  function Wanted(nr: int, delta: int, freeable: int): int { if Overflows(nr, delta) then freeable else ToLong(nr + delta) }

  /** next_deferred before anything is scanned. */
  function Taken(nr: int, delta: int): int { if Overflows(nr, delta) then nr else ToLong(nr + delta) }

  /** No windup unless this call alone asks for much, and never more than twice what is there. */
  function Limited(wanted: int, delta: int, freeable: int): int {
    var t := if delta < freeable / 4 then Min(wanted, freeable / 2) else wanted;
    if t > freeable * 2 then freeable * 2 else t
  }

  predicate GoesOn(total: int, batch: int, freeable: int) { total >= batch || total >= freeable }

  /** What is left to put back. */
  function Rest(next: int, scanned: int): int { if next >= scanned then next - scanned else 0 }

  lemma LimitedBounds(nr: int, delta: int, freeable: int)
    requires 0 < freeable && 0 <= delta
    ensures 0 <= Limited(Wanted(nr, delta, freeable), delta, freeable) <= 2 * freeable
    ensures !Overflows(nr, delta) ==> Limited(Wanted(nr, delta, freeable), delta, freeable) <= Taken(nr, delta)
  {
  }

  /** The same, branch by branch. */
  lemma AimIs(nr: int, delta: int, freeable: int)
    requires 0 < freeable && 0 <= delta
    ensures var sum := ToLong(nr + delta);
      && Limited(Wanted(nr, delta, freeable), delta, freeable)
         == Min(if sum < 0 then freeable else sum, if delta < freeable / 4 then freeable / 2 else 2 * freeable)
      && Taken(nr, delta) == (if sum < 0 then nr else sum)
  {
  }

  /** The loop: it ends for every positive batch, and scans no more than it was given; each round but the
      last is a whole batch, and is begun only while a batch or all objects are left; unless the shrinker
      stops it, it ends only when neither is. */
  method ScanLoop(total: int, batch: int, freeable: int) returns (scanned: int, rest: int, stopped: bool, ghost rounds: nat)
    requires Sane(freeable, batch) && 0 <= total <= 2 * freeable
    ensures 0 <= scanned && 0 <= rest && scanned + rest == total
    ensures stopped || (rest < batch && rest < freeable)
    ensures scanned == Min(rounds * batch, total)
    ensures 0 < rounds ==> batch <= total - (rounds - 1) * batch || freeable <= total - (rounds - 1) * batch
  {
    scanned, rest, stopped, rounds := 0, total, false, 0;
    while GoesOn(rest, batch, freeable)
      invariant 0 <= scanned && 0 <= rest && scanned + rest == total && !stopped
      invariant scanned == Min(rounds * batch, total)
      invariant 0 < rounds ==> batch <= total - (rounds - 1) * batch || freeable <= total - (rounds - 1) * batch
      decreases rest
    {
      var nrToScan := Min(batch, rest);
      stopped := *;
      if stopped { break; }
      OneRoundMore(rounds, batch);
      rest := rest - nrToScan;
      scanned := scanned + nrToScan;
      rounds := rounds + 1;
    }
  }

  lemma OneRoundMore(rounds: nat, batch: int)
    ensures (rounds + 1) * batch == rounds * batch + batch
  {
  }

  class Shrinker {
    /** nr_deferred[nid] */
    var deferred: int
    const batch: int

    constructor (batch: int, deferred: int)
      ensures this.batch == batch && this.deferred == deferred
    {
      this.batch, this.deferred := batch, deferred;
    }

    /** A call that nobody disturbs: what it took and what was added is scanned or put back.  It aims at
        their sum, or, if that is negative, at all that is there; at no more than half of what is there
        if this call alone asks for less than a quarter, and otherwise at up to twice what is there. */
    method DoShrinkSlab(freeable: int, delta: int) returns (scanned: int, stopped: bool, ghost rounds: nat)
      requires 0 <= freeable < LONG / 2 && 0 <= batch < LONG && 0 <= delta < WORD && -LONG <= deferred < LONG
      modifies this
      ensures 0 <= scanned <= 2 * freeable
      ensures freeable == 0 ==> deferred == old(deferred)
      ensures freeable != 0 ==> deferred == Rest(Taken(old(deferred), delta), scanned)
      ensures freeable != 0 ==>
        var sum := ToLong(old(deferred) + delta);
        var aim := Min(if sum < 0 then freeable else sum, if delta < freeable / 4 then freeable / 2 else 2 * freeable);
        var batchSize := if batch == 0 then 128 else batch;
        scanned == Min(rounds * batchSize, aim) && (stopped || aim - scanned < Min(batchSize, freeable))
      ensures freeable != 0 ==> (deferred + scanned == old(deferred) + delta <==> 0 <= old(deferred) + delta < LONG)
      ensures freeable != 0 ==> (Congruent(deferred + scanned, old(deferred) + delta) <==> !Overflows(old(deferred), delta))
    {
      hide Limited, Wanted, Taken, Overflows, ToLong, Congruent;
      scanned, stopped, rounds := 0, false, 0;
      if freeable == 0 { return; }
      var batchSize := BatchSize(batch);
      var nr := deferred;
      deferred := 0;
      var totalScan := ToLong(nr + delta);
      var nextDeferred;
      if totalScan < 0 {
        totalScan := freeable;
        nextDeferred := nr;
      } else {
        nextDeferred := totalScan;
      }
      if delta < freeable / 4 {
        totalScan := Min(totalScan, freeable / 2);
      }
      if totalScan > freeable * 2 {
        totalScan := freeable * 2;
      }
      AimIs(nr, delta, freeable);
      LimitedBounds(nr, delta, freeable);
      var rest;
      scanned, rest, stopped, rounds := ScanLoop(totalScan, batchSize, freeable);
      Conserved(nr, delta, freeable, scanned);
      ConservedExactly(nr, delta, freeable, scanned);
      if nextDeferred >= scanned {
        nextDeferred := nextDeferred - scanned;
      } else {
        nextDeferred := 0;
      }
      if nextDeferred > 0 {
        deferred := ToLong(deferred + nextDeferred);
      }
    }
  }

  /** What a call takes plus its delta is what it scans plus what it puts back, up to the width of the
      counter, if and only if total_scan did not become negative. */
  lemma Conserved(nr: int, delta: int, freeable: int, scanned: int)
    requires -LONG <= nr < LONG && 0 <= delta < WORD && 0 < freeable < LONG / 2
    requires 0 <= scanned <= Limited(Wanted(nr, delta, freeable), delta, freeable)
    ensures Congruent(Rest(Taken(nr, delta), scanned) + scanned, nr + delta) <==> !Overflows(nr, delta)
    ensures 0 <= Rest(Taken(nr, delta), scanned) < LONG
  {
    LimitedBounds(nr, delta, freeable);
    ToLongWraps(nr + delta);
    if !Overflows(nr, delta) {
      MultipleMod(-Wraps(nr + delta));
    } else {
      var k := Wraps(nr + delta);
      var t := ToLong(nr + delta);
      if nr >= scanned {
        assert 0 < delta;
        SmallNot(-delta);
      } else {
        assert scanned - (nr + delta) == scanned - t + WORD * -k;
        AddMultiple(scanned - t, -k);
        SmallNot(scanned - t);
      }
    }
  }

  /** Nothing is lost or made up if and only if the sum of what was taken and the delta fits the counter;
      in particular a sum that wraps around to a positive number is lost unnoticed. */
  lemma ConservedExactly(nr: int, delta: int, freeable: int, scanned: int)
    requires -LONG <= nr < LONG && 0 <= delta < WORD && 0 < freeable < LONG / 2
    requires 0 <= scanned <= Limited(Wanted(nr, delta, freeable), delta, freeable)
    ensures Rest(Taken(nr, delta), scanned) + scanned == nr + delta <==> 0 <= nr + delta < LONG
  {
    LimitedBounds(nr, delta, freeable);
    Conserved(nr, delta, freeable, scanned);
    ToLongWraps(nr + delta);
  }

  /** Inputs that lose work: a negative total_scan, and a sum that wraps around past it. */
  lemma WorkIsLost()
    ensures Overflows(0, LONG) && !Overflows(10, WORD - 5)
    ensures Rest(Taken(0, LONG), 1) + 1 != LONG && Rest(Taken(10, WORD - 5), 1) + 1 == 5
  {
  }

  lemma MultipleMod(k: int)
    ensures (WORD * k) % WORD == 0
  {
  }

  lemma AddMultiple(x: int, k: int)
    ensures (x + WORD * k) % WORD == x % WORD
  {
  }

  lemma SmallNot(x: int)
    requires x != 0 && -WORD < x < WORD
    ensures x % WORD != 0
  {
  }

  // ---- calls beside each other

  datatype Call = Idle | Running(freeable: int, batch: int, total: int, scanned: int, next: int)

  /** The counter, the calls, and what has happened so far: all deltas, everything scanned, how often
      the counter has wrapped, and whether a total_scan has ever become negative. */
  datatype State = State(deferred: int, calls: seq<Call>, initial: int, deltas: int, scans: int, wraps: int, overflowed: bool)

  datatype Action =
    | Begin(i: nat, freeable: int, batch: int, delta: int)   // the exchange with 0
    | ScanSome(i: nat)                                       // one round of scan_objects
    | PutBack(i: nat)                                        // the atomic add, after the loop or SHRINK_STOP

  predicate Enabled(s: State, act: Action) {
    && act.i < |s.calls|
    && match act
       case Begin(i, freeable, batch, delta) => s.calls[i].Idle? && Sane(freeable, batch) && 0 <= delta < WORD
       case ScanSome(i) => s.calls[i].Running? && GoesOn(s.calls[i].total, s.calls[i].batch, s.calls[i].freeable)
       case PutBack(i) => s.calls[i].Running?
  }

  function Next(s: State, act: Action): State
    requires Enabled(s, act)
  {
    match act
    case Begin(i, freeable, batch, delta) =>
      var total := Limited(Wanted(s.deferred, delta, freeable), delta, freeable);
      s.(deferred := 0, calls := s.calls[i := Running(freeable, batch, total, 0, Taken(s.deferred, delta))],
         deltas := s.deltas + delta, wraps := s.wraps + Wraps(s.deferred + delta),
         overflowed := s.overflowed || Overflows(s.deferred, delta))
    case ScanSome(i) =>
      var c := s.calls[i];
      var n := Min(c.batch, c.total);
      s.(calls := s.calls[i := c.(total := c.total - n, scanned := c.scanned + n)], scans := s.scans + n)
    case PutBack(i) =>
      var rest := Rest(s.calls[i].next, s.calls[i].scanned);
      s.(deferred := ToLong(s.deferred + rest), calls := s.calls[i := Idle], wraps := s.wraps + Wraps(s.deferred + rest))
  }

  /** What a call still owes to the counter. */
  function Credit(c: Call): int { if c.Running? then c.next - c.scanned else 0 }

  function Credits(calls: seq<Call>): int { if calls == [] then 0 else Credits(calls[..|calls| - 1]) + Credit(calls[|calls| - 1]) }

  lemma {:induction false} CreditsUpdate(calls: seq<Call>, i: nat, c: Call)
    requires i < |calls|
    ensures Credits(calls[i := c]) == Credits(calls) - Credit(calls[i]) + Credit(c)
  {
    var n := |calls| - 1;
    if i < n {
      CreditsUpdate(calls[..n], i, c);
      assert calls[i := c][..n] == calls[..n][i := c];
    } else {
      assert calls[i := c][..n] == calls[..n];
    }
  }

  ghost predicate Good(c: Call, overflowed: bool) {
    c.Running? ==>
      && Sane(c.freeable, c.batch) && 0 <= c.total && 0 <= c.scanned && c.scanned + c.total <= 2 * c.freeable
      && (!overflowed ==> c.scanned + c.total <= c.next)
  }

  ghost predicate Inv(s: State) {
    && -LONG <= s.deferred < LONG
    && (forall i :: 0 <= i < |s.calls| ==> Good(s.calls[i], s.overflowed))
    && (!s.overflowed ==> s.deferred + Credits(s.calls) == s.initial + s.deltas - s.scans - WORD * s.wraps)
  }

  /** In every interleaving, as long as no total_scan becomes negative, the counter and the credit of the
      calls in flight are what there was at first, plus all deltas, less all that was scanned; and no
      call scans more than twice what it found. */
  lemma InvNext(s: State, act: Action)
    requires Inv(s) && Enabled(s, act)
    ensures Inv(Next(s, act))
  {
    var s' := Next(s, act);
    CreditsUpdate(s.calls, act.i, s'.calls[act.i]);
    match act
    case Begin(i, freeable, batch, delta) =>
      LimitedBounds(s.deferred, delta, freeable);
      ToLongWraps(s.deferred + delta);
    case ScanSome(i) =>
    case PutBack(i) =>
      ToLongWraps(s.deferred + Rest(s.calls[i].next, s.calls[i].scanned));
  }

  /** A call begins by taking the counter whole, and aims at what DoShrinkSlab does; each round of it is a
      batch, or the rest if that is less, and is off its aim; and it puts back what it took and did not do. */
  lemma CallMeaning(s: State, act: Action)
    requires Inv(s) && Enabled(s, act)
    ensures var c, c' := s.calls[act.i], Next(s, act).calls[act.i];
      && Next(s, act).calls == s.calls[act.i := c']
      && match act
         case Begin(_, freeable, batch, delta) =>
           var sum := ToLong(s.deferred + delta);
           && Next(s, act).deferred == 0 && c'.Running? && c'.scanned == 0
           && c'.total == Min(if sum < 0 then freeable else sum, if delta < freeable / 4 then freeable / 2 else 2 * freeable)
           && c'.next == (if sum < 0 then s.deferred else sum)
         case ScanSome(_) =>
           && c'.Running? && 0 <= c'.total < c.total && c.total - c'.total <= c.batch && c'.next == c.next
           && c'.scanned - c.scanned == Next(s, act).scans - s.scans == c.total - c'.total
           && (c'.total == 0 || c.total - c'.total == c.batch)
         case PutBack(_) =>
           && c'.Idle?
           && Next(s, act).deferred == ToLong(s.deferred + if c.scanned < c.next then c.next - c.scanned else 0)
  {
  }

  ghost predicate IsRun(states: seq<State>, acts: seq<Action>) {
    && |states| == |acts| + 1
    && (forall i :: 0 <= i < |acts| ==> Enabled(states[i], acts[i]) && states[i + 1] == Next(states[i], acts[i]))
  }

  ghost predicate AllIdle(s: State) { forall i :: 0 <= i < |s.calls| ==> s.calls[i].Idle? }

  ghost predicate Fresh(s: State) {
    AllIdle(s) && s.deferred == s.initial && -LONG <= s.initial < LONG && s.deltas == 0 && s.scans == 0 && s.wraps == 0 && !s.overflowed
  }

  lemma {:induction false} NoCredit(calls: seq<Call>)
    requires forall i :: 0 <= i < |calls| ==> calls[i].Idle?
    ensures Credits(calls) == 0
  {
    if calls != [] { NoCredit(calls[..|calls| - 1]); }
  }

  lemma {:induction false} InvAlways(states: seq<State>, acts: seq<Action>, n: nat)
    requires IsRun(states, acts) && n <= |acts| && Fresh(states[0])
    ensures Inv(states[n])
  {
    if n == 0 {
      NoCredit(states[0].calls);
    } else {
      InvAlways(states, acts, n - 1);
      InvNext(states[n - 1], acts[n - 1]);
    }
  }

  /** When all calls are done, nothing of the deferred work is lost or made up: exactly, if the sum
      fits the counter, and otherwise up to its width. */
  lemma WorkConserved(states: seq<State>, acts: seq<Action>)
    requires IsRun(states, acts) && Fresh(states[0]) && AllIdle(states[|acts|]) && !states[|acts|].overflowed
    ensures var s := states[|acts|];
      && Congruent(s.deferred, s.initial + s.deltas - s.scans)
      && (s.deferred == s.initial + s.deltas - s.scans <==> -LONG <= s.initial + s.deltas - s.scans < LONG)
  {
    InvAlways(states, acts, |acts|);
    var s := states[|acts|];
    NoCredit(s.calls);
    MultipleMod(-s.wraps);
    assert s.deferred - (s.initial + s.deltas - s.scans) == WORD * -s.wraps;
  }
}
