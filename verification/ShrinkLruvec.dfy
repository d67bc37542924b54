/** get_scan_count and shrink_lruvec: how much of each LRU list is asked for, and how the rest is
    rebalanced once enough has been reclaimed.  Counts are not bounded by a word. */
module ShrinkLruvec {
  import opened Arith

  const SWAP_CLUSTER_MAX: nat := 32
  const DEF_PRIORITY: nat := 12

  // enum lru_list
  const INACTIVE_ANON: nat := 0
  const ACTIVE_ANON: nat := 1
  const INACTIVE_FILE: nat := 2
  const ACTIVE_FILE: nat := 3
  const LRU_ACTIVE: nat := 1

  /** 0 for the anonymous lists, 1 for the file lists. */
  function TypeOf(l: nat): nat { if l < INACTIVE_FILE then 0 else 1 }

  // ---- get_scan_count

  datatype Balance = Equal | Fract | AnonOnly | FileOnly

  datatype Control = Control(
    kswapd: bool, zoneReclaimable: bool, online: bool, globalReclaim: bool,
    maySwap: bool, swapPages: int, priority: nat,
    zoneFile: nat, zoneFree: nat, highWmark: nat)

  predicate Forced(sc: Control) {
    (sc.kswapd && (!sc.zoneReclaimable || !sc.online)) || !sc.globalReclaim
  }

  /** Inversely proportional to the fraction of scanned pages that were rotated back. */
  function Pressure(prio: nat, scanned: nat, rotated: nat): nat { prio * (scanned + 1) / (rotated + 1) }

  lemma PressureIs(prio: nat, scanned: nat, rotated: nat)
    ensures Pressure(prio, scanned, rotated) == prio * (scanned + 1) / (rotated + 1)
  {
  }

  /** A type that is scanned more, or rotated less, is pressed at least as hard. */
  lemma PressureFollows(prio: nat, scanned: nat, rotated: nat, scanned': nat, rotated': nat)
    requires scanned <= scanned' && rotated' <= rotated
    ensures Pressure(prio, scanned, rotated) <= Pressure(prio, scanned', rotated')
  {
    var p := Pressure(prio, scanned, rotated);
    assert (rotated + 1) * p <= prio * (scanned + 1);
    MulLe(prio, scanned + 1, scanned' + 1);
    MulLe(p, rotated' + 1, rotated + 1);
    LeDiv(prio * (scanned' + 1), p, rotated' + 1);
  }

  lemma LeDiv(p: nat, q: nat, d: nat)
    requires 0 < d && d * q <= p
    ensures q <= p / d
  {
    assert p < d * (p / d) + d;
    MulCancel(d, q, p / d);
  }

  /** A floating average over a list of this many pages, of which so many were scanned recently. */
  function Aged(average: nat, scanned: nat, pages: nat): nat { if scanned > pages / 4 then average / 2 else average }

  /** Anonymous pages are out of the question. */
  predicate NoAnon(swappiness: nat, sc: Control) { !sc.maySwap || sc.swapPages <= 0 || (!sc.globalReclaim && swappiness == 0) }

  predicate Included(b: Balance, l: nat) { (b.FileOnly? ==> TypeOf(l) == 1) && (b.AnonOnly? ==> TypeOf(l) == 0) }

  /** A share of what is scanned, by type. */
  function Part(scan: nat, fraction: nat, denominator: nat): nat
    requires 0 < denominator
  { scan * fraction / denominator }

  lemma PartBound(scan: nat, fraction: nat, denominator: nat)
    requires 0 < denominator && fraction <= denominator
    ensures Part(scan, fraction, denominator) <= scan
  {
    MulLe(scan, fraction, denominator);
    DivLe(scan * fraction, scan, denominator);
  }

  lemma MulLe(x: nat, a: nat, b: nat)
    requires a <= b
    ensures x * a <= x * b
  {
  }

  lemma MulCancel(d: nat, a: nat, b: nat)
    requires 0 < d && d * a < d * b + d
    ensures a <= b
  {
    if b < a { MulLe(d, b + 1, a); }
  }

  lemma DivLe(p: nat, q: nat, d: nat)
    requires 0 < d && p <= q * d
    ensures p / d <= q
  {
    assert d * (p / d) <= p;
    MulCancel(d, p / d, q);
  }

  /** The shares of anonymous and file pages in one scan amount never add up to more than it. */
  lemma SharesFit(scan: nat, ap: nat, fp: nat)
    ensures Part(scan, ap, ap + fp + 1) + Part(scan, fp, ap + fp + 1) <= scan
  {
    var d := ap + fp + 1;
    var p, q := Part(scan, ap, d), Part(scan, fp, d);
    assert d * p <= scan * ap && d * q <= scan * fp;
    assert d * (p + q) == d * p + d * q;
    assert scan * ap + scan * fp == scan * (ap + fp);
    MulLe(scan, ap + fp, d);
    MulCancel(d, p + q, scan);
  }

  /** The budget of a list of this size that is scanned at all. */
  function Budget(size: nat, l: nat, sc: Control, b: Balance, ap: nat, fp: nat, forced: bool): nat {
    var shifted := size / Pow2(sc.priority);
    var scan := if shifted == 0 && forced then Min(size, SWAP_CLUSTER_MAX) else shifted;
    if b.Fract? then Part(scan, if TypeOf(l) == 0 then ap else fp, ap + fp + 1) else scan
  }

  function Counted(size: nat, l: nat, b: Balance): nat { if Included(b, l) then size else 0 }

  /** Lists 0 and 1 are anonymous, 2 and 3 hold pages of files. */
  lemma WhichLists(b: Balance)
    ensures forall l: nat :: Included(b, l) <==> (l < 2 && b != FileOnly) || (2 <= l && b != AnonOnly)
  {
  }

  lemma CountedIs(size: seq<nat>, b: Balance)
    requires |size| == 4
    ensures Counted(size[0], 0, b) + Counted(size[1], 1, b) + Counted(size[2], 2, b) + Counted(size[3], 3, b)
      == (if b == FileOnly then 0 else size[0] + size[1]) + (if b == AnonOnly then 0 else size[2] + size[3])
  {
  }

  /** The budget by type of list. */
  lemma BudgetIs(size: nat, l: nat, sc: Control, b: Balance, ap: nat, fp: nat, forced: bool)
    ensures var shifted := size / Pow2(sc.priority);
      var scan := if shifted == 0 && forced then Min(size, 32) else shifted;
      Budget(size, l, sc, b, ap, fp, forced)
      == if b != Fract then scan else if l < 2 then scan * ap / (ap + fp + 1) else scan * fp / (ap + fp + 1)
  {
  }

  lemma BudgetBound(size: nat, l: nat, sc: Control, b: Balance, ap: nat, fp: nat, forced: bool)
    ensures Budget(size, l, sc, b, ap, fp, forced) <= size
    ensures forced && !b.Fract? && 0 < size ==> 0 < Budget(size, l, sc, b, ap, fp, forced)
    ensures sc.priority == 0 && !b.Fract? ==> Budget(size, l, sc, b, ap, fp, forced) == size
  {
    var shifted := size / Pow2(sc.priority);
    ShiftBound(size, sc.priority);
    var scan := if shifted == 0 && forced then Min(size, SWAP_CLUSTER_MAX) else shifted;
    PartBound(scan, if TypeOf(l) == 0 then ap else fp, ap + fp + 1);
  }

  /** All four budgets. */
  lemma BudgetsAre(size: seq<nat>, nr: seq<nat>, sc: Control, b: Balance, ap: nat, fp: nat, forced: bool)
    requires |size| == |nr| == 4
    requires forall l :: 0 <= l < 4 ==> nr[l] == if Included(b, l) then Budget(size[l], l, sc, b, ap, fp, forced) else 0
    ensures forall l :: 0 <= l < 4 ==>
      var shifted := size[l] / Pow2(sc.priority);
      var scan := if shifted == 0 && forced then Min(size[l], 32) else shifted;
      nr[l] == match b
        case Equal => scan
        case Fract => if l < 2 then scan * ap / (ap + fp + 1) else scan * fp / (ap + fp + 1)
        case AnonOnly => if l < 2 then scan else 0
        case FileOnly => if l < 2 then 0 else scan
    ensures forall l :: 0 <= l < 4 ==> nr[l] <= size[l] && (sc.priority == 0 && b == Equal ==> nr[l] == size[l])
    ensures forall l :: 0 <= l < 4 && forced && b != Fract && Included(b, l) ==> (nr[l] == 0 <==> size[l] == 0)
  {
    hide Budget, Included, Pow2;
    forall l | 0 <= l < 4
      ensures nr[l] <= size[l] && (sc.priority == 0 && b == Equal ==> nr[l] == size[l])
      ensures forced && b != Fract && Included(b, l) ==> (nr[l] == 0 <==> size[l] == 0)
      ensures var shifted := size[l] / Pow2(sc.priority);
        var scan := if shifted == 0 && forced then Min(size[l], 32) else shifted;
        nr[l] == match b
          case Equal => scan
          case Fract => if l < 2 then scan * ap / (ap + fp + 1) else scan * fp / (ap + fp + 1)
          case AnonOnly => if l < 2 then scan else 0
          case FileOnly => if l < 2 then 0 else scan
    {
      WhichLists(b);
      BudgetBound(size[l], l, sc, b, ap, fp, forced);
      BudgetIs(size[l], l, sc, b, ap, fp, forced);
    }
  }

  class Lruvec {
    var size: seq<nat>
    var recentScanned: seq<nat>
    var recentRotated: seq<nat>
    const totalSwapPages: nat

    predicate Valid()
      reads this
    { |size| == 4 && |recentScanned| == 2 && |recentRotated| == 2 }

    constructor (size: seq<nat>, scanned: seq<nat>, rotated: seq<nat>, swapPages: nat)
      requires |size| == 4 && |scanned| == 2 && |rotated| == 2
      ensures Valid() && this.size == size && recentScanned == scanned && recentRotated == rotated
    {
      this.size, recentScanned, recentRotated, totalSwapPages := size, scanned, rotated, swapPages;
    }

    predicate InactiveFileIsLow()
      requires Valid()
      reads this
    { size[ACTIVE_FILE] > size[INACTIVE_FILE] }

    /** The averages of a type are as they were, or halved if more than a quarter of its pages were scanned. */
    predicate Halved(t: nat, scanned: seq<nat>, rotated: seq<nat>)
      requires Valid() && t < 2 && |scanned| == 2 && |rotated| == 2
      reads this
    {
      if scanned[t] > (size[2 * t] + size[2 * t + 1]) / 4 then recentScanned[t] == scanned[t] / 2 && recentRotated[t] == rotated[t] / 2
      else recentScanned[t] == scanned[t] && recentRotated[t] == rotated[t]
    }

    /** The floating averages are halved when they have grown past a quarter of their lists. */
    method Age(t: nat, pages: nat)
      requires Valid() && t < 2
      modifies this`recentScanned, this`recentRotated
      ensures Valid()
      ensures recentScanned == old(recentScanned)[t := Aged(old(recentScanned[t]), old(recentScanned[t]), pages)]
      ensures recentRotated == old(recentRotated)[t := Aged(old(recentRotated[t]), old(recentScanned[t]), pages)]
    {
      if recentScanned[t] > pages / 4 {
        recentScanned := recentScanned[t := recentScanned[t] / 2];
        recentRotated := recentRotated[t := recentRotated[t] / 2];
      }
    }

    /** The pressure on each type: its priority, by how rarely its recently scanned pages were rotated. */
    method Fractions(swappiness: nat) returns (ap: nat, fp: nat)
      requires Valid() && swappiness <= 200
      modifies this`recentScanned, this`recentRotated
      ensures Valid()
      ensures ap == Pressure(swappiness, recentScanned[0], recentRotated[0]) && fp == Pressure(200 - swappiness, recentScanned[1], recentRotated[1])
      ensures Halved(0, old(recentScanned), old(recentRotated)) && Halved(1, old(recentScanned), old(recentRotated))
    {
      hide Pressure;
      var anonPrio, filePrio := swappiness, 200 - swappiness;
      var anon, file := size[ACTIVE_ANON] + size[INACTIVE_ANON], size[ACTIVE_FILE] + size[INACTIVE_FILE];
      Age(0, anon);
      Age(1, file);
      ap := Pressure(anonPrio, recentScanned[0], recentRotated[0]);
      fp := Pressure(filePrio, recentScanned[1], recentRotated[1]);
    }

    /** Which lists to scan; for Fract also the fractions and the denominator. */
    method Weigh(swappiness: nat, sc: Control) returns (b: Balance, ap: nat, fp: nat)
      requires Valid() && swappiness <= 200
      modifies this`recentScanned, this`recentRotated
      ensures Valid()
      ensures NoAnon(swappiness, sc) ==> b == FileOnly
      ensures b == Equal <==> !NoAnon(swappiness, sc) && sc.priority == 0 && swappiness != 0
      ensures b == AnonOnly <==> !NoAnon(swappiness, sc) && (sc.priority != 0 || swappiness == 0) && sc.globalReclaim && sc.zoneFile + sc.zoneFree <= sc.highWmark
      ensures b == Fract || b == FileOnly ==> (b == Fract <==> !NoAnon(swappiness, sc) && InactiveFileIsLow())
      ensures b == Fract ==> ap == Pressure(swappiness, recentScanned[0], recentRotated[0]) && fp == Pressure(200 - swappiness, recentScanned[1], recentRotated[1])
      ensures b != Fract ==> recentScanned == old(recentScanned) && recentRotated == old(recentRotated)
      ensures b == Fract ==> Halved(0, old(recentScanned), old(recentRotated)) && Halved(1, old(recentScanned), old(recentRotated))
    {
      hide Pressure;
      ap, fp := 0, 0;
      if !sc.maySwap || sc.swapPages <= 0 { return FileOnly, 0, 0; }
      if !sc.globalReclaim && swappiness == 0 { return FileOnly, 0, 0; }
      if sc.priority == 0 && swappiness != 0 { return Equal, 0, 0; }
      if sc.globalReclaim && sc.zoneFile + sc.zoneFree <= sc.highWmark { return AnonOnly, 0, 0; }
      if !InactiveFileIsLow() { return FileOnly, 0, 0; }
      b := Fract;
      ap, fp := Fractions(swappiness);
    }

    /** One list: the pages that count, and how many of them to scan. */
    method One(l: nat, sc: Control, b: Balance, ap: nat, fp: nat, forced: bool) returns (pages: nat, scan: nat)
      requires Valid() && l < 4
      ensures scan == (if Included(b, l) then Budget(size[l], l, sc, b, ap, fp, forced) else 0) && pages == Counted(size[l], l, b)
    {
      hide Part, Pow2;
      pages := size[l];
      scan := pages / Pow2(sc.priority);
      if scan == 0 && forced { scan := Min(pages, SWAP_CLUSTER_MAX); }
      match b {
        case Equal =>
        case Fract => scan := Part(scan, if TypeOf(l) == 0 then ap else fp, ap + fp + 1);
        case _ => if b.FileOnly? != (TypeOf(l) == 1) { pages, scan := 0, 0; }
      }
    }

    /** One pass over the evictable lists. */
    method Pass(sc: Control, b: Balance, ap: nat, fp: nat, forced: bool, nr: array<nat>) returns (lruPages: nat, some: bool)
      requires Valid() && nr.Length == 4
      modifies nr
      ensures forall l :: 0 <= l < 4 ==> nr[l] == if Included(b, l) then Budget(size[l], l, sc, b, ap, fp, forced) else 0
      ensures some <==> exists l :: 0 <= l < 4 && 0 < nr[l]
      ensures lruPages == Counted(size[0], 0, b) + Counted(size[1], 1, b) + Counted(size[2], 2, b) + Counted(size[3], 3, b)
    {
      hide Budget, Included, Counted;
      lruPages, some := 0, false;
      var l := 0;
      while l < 4
        invariant 0 <= l <= 4
        invariant forall j :: 0 <= j < l ==> nr[j] == if Included(b, j) then Budget(size[j], j, sc, b, ap, fp, forced) else 0
        invariant some <==> exists j :: 0 <= j < l && 0 < nr[j]
        invariant lruPages == (if 0 < l then Counted(size[0], 0, b) else 0) + (if 1 < l then Counted(size[1], 1, b) else 0)
                              + (if 2 < l then Counted(size[2], 2, b) else 0) + (if 3 < l then Counted(size[3], 3, b) else 0)
      {
        var pages, scan := One(l, sc, b, ap, fp, forced);
        lruPages := lruPages + pages;
        nr[l] := scan;
        some := some || scan != 0;
        l := l + 1;
      }
    }

    /** The second pass is made only if the first found nothing to scan, and only it may force. */
    method BothPasses(sc: Control, b: Balance, ap: nat, fp: nat, nr: array<nat>) returns (lruPages: nat, forced: bool)
      requires Valid() && nr.Length == 4
      modifies nr
      ensures forall l :: 0 <= l < 4 ==> nr[l] == if Included(b, l) then Budget(size[l], l, sc, b, ap, fp, forced) else 0
      ensures forced ==> Forced(sc) && forall l :: 0 <= l < 4 && Included(b, l) ==> Budget(size[l], l, sc, b, ap, fp, false) == 0
      ensures Forced(sc) && (forall l :: 0 <= l < 4 ==> nr[l] == 0) ==> forced
      ensures lruPages == Counted(size[0], 0, b) + Counted(size[1], 1, b) + Counted(size[2], 2, b) + Counted(size[3], 3, b)
    {
      hide Budget, Included, Counted;
      forced, lruPages := false, 0;
      var some, pass := false, 0;
      while !some && pass < 2
        modifies nr
        invariant Valid() && 0 <= pass <= 2 && (pass == 0 ==> !some) && forced == (pass == 2 && Forced(sc))
        invariant 0 < pass ==> forall l :: 0 <= l < 4 ==> nr[l] == if Included(b, l) then Budget(size[l], l, sc, b, ap, fp, forced) else 0
        invariant 0 < pass ==> (some <==> exists l :: 0 <= l < 4 && 0 < nr[l])
        invariant pass == 2 ==> forall l :: 0 <= l < 4 && Included(b, l) ==> Budget(size[l], l, sc, b, ap, fp, false) == 0
        invariant 0 < pass ==> lruPages == Counted(size[0], 0, b) + Counted(size[1], 1, b) + Counted(size[2], 2, b) + Counted(size[3], 3, b)
      {
        assert pass == 1 ==> forall l :: 0 <= l < 4 ==> nr[l] == 0;
        forced := pass == 1 && Forced(sc);
        lruPages, some := Pass(sc, b, ap, fp, forced, nr);
        pass := pass + 1;
      }
    }

    /** No list gets a budget beyond its size; an excluded type gets none; the budgets are the shares
        of the sizes shifted by the priority; and unless they are fractional, forcing finds something
        to scan whenever there is anything.  Without swap, or if the swappiness of a group forbids it, no
        anonymous page is scanned; close to running out of memory every list is scanned whole; when there
        is next to no page cache, only anonymous pages are; and while the inactive file list is long
        enough, only file pages are. */
    method GetScanCount(swappiness: nat, sc: Control, nr: array<nat>) returns (lruPages: nat, b: Balance, ap: nat, fp: nat, forced: bool)
      requires Valid() && swappiness <= 200 && nr.Length == 4
      modifies nr, this`recentScanned, this`recentRotated
      ensures Valid()
      ensures forall l :: 0 <= l < 4 ==> nr[l] <= size[l]
      ensures forall l :: 0 <= l < 4 ==>
        var shifted := size[l] / Pow2(sc.priority);
        var scan := if shifted == 0 && forced then Min(size[l], 32) else shifted;
        nr[l] == match b
          case Equal => scan
          case Fract => if l < 2 then scan * ap / (ap + fp + 1) else scan * fp / (ap + fp + 1)
          case AnonOnly => if l < 2 then scan else 0
          case FileOnly => if l < 2 then 0 else scan
      ensures !sc.maySwap || sc.swapPages <= 0 || (!sc.globalReclaim && swappiness == 0) ==> b == FileOnly
      ensures sc.maySwap && 0 < sc.swapPages && swappiness != 0 && sc.priority == 0 ==> forall l :: 0 <= l < 4 ==> nr[l] == size[l]
      ensures sc.maySwap && 0 < sc.swapPages && (sc.globalReclaim || swappiness != 0) && (sc.priority != 0 || swappiness == 0) ==>
        b == if sc.globalReclaim && sc.zoneFile + sc.zoneFree <= sc.highWmark then AnonOnly
             else if size[ACTIVE_FILE] > size[INACTIVE_FILE] then Fract
             else FileOnly
      ensures b == Fract ==>
        && ap == swappiness * (recentScanned[0] + 1) / (recentRotated[0] + 1)
        && fp == (200 - swappiness) * (recentScanned[1] + 1) / (recentRotated[1] + 1)
      ensures b == Fract ==> Halved(0, old(recentScanned), old(recentRotated)) && Halved(1, old(recentScanned), old(recentRotated))
      ensures b != Fract ==> recentScanned == old(recentScanned) && recentRotated == old(recentRotated)
      ensures forced ==> (sc.kswapd && (!sc.zoneReclaimable || !sc.online)) || !sc.globalReclaim
      ensures forced ==> forall l :: 0 <= l < 4 ==> Included(b, l) ==> Budget(size[l], l, sc, b, ap, fp, false) == 0
      ensures ((sc.kswapd && (!sc.zoneReclaimable || !sc.online)) || !sc.globalReclaim) && (forall l :: 0 <= l < 4 ==> nr[l] == 0) ==>
        forced && (b != Fract ==> forall l :: 0 <= l < 4 && Included(b, l) ==> size[l] == 0)
      ensures lruPages == (if b == FileOnly then 0 else size[0] + size[1]) + (if b == AnonOnly then 0 else size[2] + size[3])
    {
      hide Budget, Included, Counted, Pressure, Pow2;
      b, ap, fp := Weigh(swappiness, sc);
      lruPages, forced := BothPasses(sc, b, ap, fp, nr);
      BudgetsAre(size, nr[..], sc, b, ap, fp, forced);
      CountedIs(size, b);
      PressureIs(swappiness, recentScanned[0], recentRotated[0]);
      PressureIs(200 - swappiness, recentScanned[1], recentRotated[1]);
    }
  }

  lemma ShiftBound(x: nat, n: nat)
    ensures x / Pow2(n) <= x
  {
    MulLe(x, 1, Pow2(n));
    DivLe(x, x, Pow2(n));
  }

  /** x, halved so many times. */
  function Halves(x: nat, n: nat): nat { if n == 0 then x else Halves(x / 2, n - 1) }

  /** Shifting by the priority halves a size that many times. */
  lemma {:induction false} ShiftHalves(x: nat, n: nat)
    ensures x / Pow2(n) == Halves(x, n)
  {
    if n > 0 {
      ShiftHalves(x / 2, n - 1);
      var d := Pow2(n - 1);
      var q := x / 2 / d;
      assert d * q <= x / 2 < d * q + d;
      assert 2 * d * q == 2 * (d * q);
      Quotient(x, 2 * d, q);
    }
  }

  lemma Quotient(x: nat, d: nat, q: nat)
    requires 0 < d && d * q <= x < d * q + d
    ensures x / d == q
  {
    LeDiv(x, q, d);
    assert x <= d * q + (d - 1) && d * (x / d) <= x;
    MulCancel(d, x / d, q);
  }

  // ---- shrink_lruvec

  /** What a list of the larger type may still be asked for in all. */
  function Quota(target: nat, percentage: nat): nat
    requires percentage < 100
  { target * (100 - percentage) / 100 }

  lemma QuotaBound(target: nat, percentage: nat)
    requires percentage < 100
    ensures Quota(target, percentage) <= target
  {
    MulLe(target, 100 - percentage, 100);
    DivLe(target * (100 - percentage), target, 100);
  }

  /** The part of the smaller type that is still to be scanned. */
  function Percent(rest: nat, target: nat): nat { rest * 100 / (target + 1) }

  lemma PercentBound(rest: nat, target: nat)
    requires rest <= target
    ensures Percent(rest, target) < 100
  {
    if rest == 0 {
    } else {
      assert rest * 100 <= 99 * (target + 1) + target;
      MulCancel(target + 1, Percent(rest, target), 99);
    }
  }

  /** When the one rebalancing happened, and what it saw: the first list of the larger type, the
      percentage left of the smaller type, and what had been asked of each list. */
  datatype Nudge = NotYet | Once(larger: nat, percentage: nat, asked: seq<nat>)

  function Pair(s: seq<nat>, first: nat): nat
    requires first + LRU_ACTIVE < |s|
  { s[first] + s[first + LRU_ACTIVE] }

  function Other(first: nat): nat { if first == INACTIVE_FILE then INACTIVE_ANON else INACTIVE_FILE }

  /** Before the rebalancing, asked and still to ask make the target.  After it, a list of the larger
      type is asked for its quota in all, or for what it had been asked already if that is more; the
      smaller type is asked for nothing more. */
  ghost predicate Proportional(targets: seq<nat>, nr: seq<nat>, asked: seq<nat>, n: Nudge)
    requires |targets| == 4 && |nr| == 4 && |asked| == 4
  {
    match n
    case NotYet => forall l :: 0 <= l < 4 ==> asked[l] + nr[l] == targets[l]
    case Once(larger, percentage, was) =>
      && (larger == INACTIVE_ANON || larger == INACTIVE_FILE) && percentage < 100 && |was| == 4
      && (forall l :: 0 <= l < 4 ==> was[l] <= asked[l] <= targets[l])
      && 0 < Pair(targets, Other(larger)) - Pair(was, Other(larger)) <= Pair(targets, larger) - Pair(was, larger)
      && (forall l :: larger <= l <= larger + LRU_ACTIVE ==> asked[l] + nr[l] == Max(was[l], Quota(targets[l], percentage)))
      && (forall l :: Other(larger) <= l <= Other(larger) + LRU_ACTIVE ==> nr[l] == 0 && asked[l] == was[l])
      && percentage == Percent(Pair(targets, Other(larger)) - Pair(was, Other(larger)), Pair(targets, Other(larger)))
  }

  /** What the rebalancing makes of the budgets. */
  lemma Rebalanced(targets: seq<nat>, nr: seq<nat>, asked: seq<nat>, larger: nat, percentage: nat, nr': seq<nat>)
    requires |targets| == 4 && |nr| == 4 && |asked| == 4 && |nr'| == 4 && Proportional(targets, nr, asked, NotYet)
    requires (larger == INACTIVE_ANON || larger == INACTIVE_FILE) && 0 < Pair(nr, Other(larger)) <= Pair(nr, larger)
    requires percentage == Percent(Pair(nr, Other(larger)), Pair(targets, Other(larger))) && percentage < 100
    requires nr'[Other(larger)] == nr'[Other(larger) + LRU_ACTIVE] == 0
    requires forall l :: larger <= l <= larger + LRU_ACTIVE ==>
      targets[l] - nr[l] + nr'[l] == Max(targets[l] - nr[l], Quota(targets[l], percentage)) && nr'[l] <= nr[l]
    ensures Proportional(targets, nr', asked, Once(larger, percentage, asked))
  {
    hide Percent, Quota;
  }

  /** How many sweeps a budget lasts. */
  function Sweeps(budget: nat): nat { (budget + SWAP_CLUSTER_MAX - 1) / SWAP_CLUSTER_MAX }

  /** How many sweeps the lists last that the loop watches; the active anonymous list is not one of them. */
  function Watched(budgets: seq<nat>): nat
    requires |budgets| == 4
  { Max(Sweeps(budgets[INACTIVE_ANON]), Max(Sweeps(budgets[INACTIVE_FILE]), Sweeps(budgets[ACTIVE_FILE]))) }

  /** What is left of budgets after so many sweeps. */
  ghost predicate SweptFrom(budgets: seq<nat>, sweeps: nat, nr: seq<nat>) {
    |budgets| == |nr| == 4 && forall l :: 0 <= l < 4 ==> nr[l] == Max(budgets[l] - sweeps * SWAP_CLUSTER_MAX, 0)
  }

  lemma NotSwept(nr: seq<nat>)
    requires |nr| == 4
    ensures SweptFrom(nr, 0, nr)
  {
  }

  lemma OneMoreSweep(budgets: seq<nat>, sweeps: nat, nr: seq<nat>, nr': seq<nat>)
    requires SweptFrom(budgets, sweeps, nr) && |nr'| == 4 && forall l :: 0 <= l < 4 ==> nr'[l] == nr[l] - Min(nr[l], SWAP_CLUSTER_MAX)
    ensures SweptFrom(budgets, sweeps + 1, nr')
    ensures nr[INACTIVE_ANON] != 0 || nr[ACTIVE_FILE] != 0 || nr[INACTIVE_FILE] != 0 ==> sweeps + 1 <= Watched(budgets)
  {
  }

  /** A list has budget left if it lasts for more sweeps than there were. */
  lemma LeftAfter(budgets: seq<nat>, sweeps: nat, nr: seq<nat>, l: nat)
    requires SweptFrom(budgets, sweeps, nr) && l < 4
    ensures 0 < nr[l] <==> sweeps < Sweeps(budgets[l])
  {
  }

  lemma AllSwept(budgets: seq<nat>, sweeps: nat, nr: seq<nat>)
    requires SweptFrom(budgets, sweeps, nr) && sweeps <= Watched(budgets)
    requires nr[INACTIVE_ANON] == 0 && nr[ACTIVE_FILE] == 0 && nr[INACTIVE_FILE] == 0
    ensures sweeps == Watched(budgets)
  {
    LeftAfter(budgets, sweeps, nr, INACTIVE_ANON);
    LeftAfter(budgets, sweeps, nr, INACTIVE_FILE);
    LeftAfter(budgets, sweeps, nr, ACTIVE_FILE);
  }

  /** What one sweep asks of untouched budgets. */
  ghost predicate FirstSweep(targets: seq<nat>, asked: seq<nat>) {
    |targets| == |asked| == 4 && forall l :: 0 <= l < 4 ==> asked[l] == Min(targets[l], SWAP_CLUSTER_MAX)
  }

  lemma SweptFirst(targets: seq<nat>, nr: seq<nat>, asked: seq<nat>, asked': seq<nat>)
    requires |targets| == |nr| == |asked| == |asked'| == 4 && forall l :: 0 <= l < 4 ==> asked'[l] == asked[l] + Min(nr[l], SWAP_CLUSTER_MAX)
    ensures asked == [0, 0, 0, 0] && nr == targets ==> FirstSweep(targets, asked')
  {
  }

  class Shrinker {
    const nr: array<nat>
    const targets: array<nat>
    /** How many pages have been asked of each list so far. */
    var asked: seq<nat>
    var nrReclaimed: nat
    /** How many pages shrink_list has reclaimed in all. */
    ghost var got: nat

    ghost predicate Valid()
      reads this, nr, targets
    { nr.Length == 4 && targets.Length == 4 && nr != targets && |asked| == 4 }

    constructor (nr: array<nat>)
      requires nr.Length == 4
      ensures Valid() && this.nr == nr && fresh(targets) && targets[..] == nr[..] && asked == [0, 0, 0, 0] && nrReclaimed == got == 0
    {
      this.nr, asked, nrReclaimed, got := nr, [0, 0, 0, 0], 0, 0;
      targets := new nat[4];
      new;
      targets[0], targets[1], targets[2], targets[3] := nr[0], nr[1], nr[2], nr[3];
      assert targets[..] == nr[..];
    }

    function Left(): nat
      requires Valid()
      reads this, nr, targets
    { nr[INACTIVE_ANON] + nr[ACTIVE_ANON] + nr[INACTIVE_FILE] + nr[ACTIVE_FILE] }

    /** shrink_list: an active list reclaims nothing by itself. */
    method ShrinkList(l: nat, n: nat) returns (reclaimed: nat)
      requires Valid() && l < 4
      modifies this`asked, this`got
      ensures Valid() && asked == old(asked)[l := old(asked[l]) + n] && got == old(got) + reclaimed
      ensures l == ACTIVE_ANON || l == ACTIVE_FILE ==> reclaimed == 0
    {
      asked := asked[l := asked[l] + n];
      var some: int := *;
      reclaimed := if some < 0 then 0 else some;
      if l == ACTIVE_ANON || l == ACTIVE_FILE { reclaimed := 0; }
      got := got + reclaimed;
    }

    /** One sweep: up to SWAP_CLUSTER_MAX pages of each list that has some left. */
    method Sweep()
      requires Valid()
      modifies this`asked, this`nrReclaimed, this`got, nr
      ensures Valid() && nrReclaimed - got == old(nrReclaimed - got) && old(got) <= got
      ensures forall l :: 0 <= l < 4 ==> nr[l] <= old(nr[l]) && asked[l] + nr[l] == old(asked[l]) + old(nr[l])
      ensures forall l :: 0 <= l < 4 ==> asked[l] - old(asked[l]) == Min(old(nr[l]), SWAP_CLUSTER_MAX)
    {
      var l := 0;
      while l < 4
        invariant 0 <= l <= 4 && Valid() && nrReclaimed - got == old(nrReclaimed - got) && old(got) <= got
        invariant forall j :: 0 <= j < l ==> nr[j] <= old(nr[j]) && asked[j] + nr[j] == old(asked[j]) + old(nr[j])
        invariant forall j :: 0 <= j < l ==> asked[j] - old(asked[j]) == Min(old(nr[j]), SWAP_CLUSTER_MAX)
        invariant forall j :: l <= j < 4 ==> nr[j] == old(nr[j]) && asked[j] == old(asked[j])
      {
        if nr[l] != 0 {
          var n := Min(nr[l], SWAP_CLUSTER_MAX);
          nr[l] := nr[l] - n;
          var r := ShrinkList(l, n);
          nrReclaimed := nrReclaimed + r;
        }
        l := l + 1;
      }
    }

    /** Cut one list of the larger type down to its share. */
    method Recalculate(l: nat, percentage: nat)
      requires Valid() && l < 4 && percentage < 100 && nr[l] <= targets[l]
      modifies nr
      ensures nr[l] <= old(nr[l])
      ensures targets[l] - old(nr[l]) + nr[l] == Max(targets[l] - old(nr[l]), Quota(targets[l], percentage))
      ensures forall j :: 0 <= j < 4 && j != l ==> nr[j] == old(nr[j])
    {
      QuotaBound(targets[l], percentage);
      var nrScanned := targets[l] - nr[l];
      nr[l] := Quota(targets[l], percentage);
      nr[l] := nr[l] - Min(nr[l], nrScanned);
    }

    /** The rebalancing: stop the smaller type, cut the larger one down.  No budget grows. */
    method Rebalance() returns (n: Nudge)
      requires Valid() && Proportional(targets[..], nr[..], asked, NotYet)
      requires 0 < Pair(nr[..], INACTIVE_ANON) && 0 < Pair(nr[..], INACTIVE_FILE)
      modifies nr
      ensures Valid() && n.Once? && n.asked == asked && Proportional(targets[..], nr[..], asked, n)
      ensures Left() <= old(Left()) && forall l :: 0 <= l < 4 ==> nr[l] <= old(nr[l])
    {
      hide Percent, Quota, Proportional;
      ghost var nr0 := nr[..];
      AskedBound(targets[..], nr[..], asked, NotYet);
      var nrFile, nrAnon := nr[INACTIVE_FILE] + nr[ACTIVE_FILE], nr[INACTIVE_ANON] + nr[ACTIVE_ANON];
      var lru, percentage;
      if nrFile > nrAnon {
        lru := INACTIVE_ANON;
        percentage := Percent(nrAnon, targets[INACTIVE_ANON] + targets[ACTIVE_ANON]);
        PercentBound(nrAnon, targets[INACTIVE_ANON] + targets[ACTIVE_ANON]);
      } else {
        lru := INACTIVE_FILE;
        percentage := Percent(nrFile, targets[INACTIVE_FILE] + targets[ACTIVE_FILE]);
        PercentBound(nrFile, targets[INACTIVE_FILE] + targets[ACTIVE_FILE]);
      }
      nr[lru] := 0;
      nr[lru + LRU_ACTIVE] := 0;
      lru := if lru == INACTIVE_FILE then INACTIVE_ANON else INACTIVE_FILE;
      Recalculate(lru, percentage);
      Recalculate(lru + LRU_ACTIVE, percentage);
      n := Once(lru, percentage, asked);
      Rebalanced(targets[..], nr0, asked, lru, percentage, nr[..]);
    }

    /** A sweep keeps the proportions. */
    method SweepOn(n: Nudge)
      requires Valid() && Proportional(targets[..], nr[..], asked, n)
      modifies this`asked, this`nrReclaimed, this`got, nr
      ensures Valid() && nrReclaimed - got == old(nrReclaimed - got) && old(got) <= got
      ensures forall l :: 0 <= l < 4 ==> asked[l] == old(asked[l]) + Min(old(nr[l]), SWAP_CLUSTER_MAX)
      ensures forall l :: 0 <= l < 4 ==> nr[l] == old(nr[l]) - Min(old(nr[l]), SWAP_CLUSTER_MAX)
      ensures old(nr[INACTIVE_ANON] != 0 || nr[ACTIVE_FILE] != 0 || nr[INACTIVE_FILE] != 0) ==> Left() < old(Left())
      ensures Proportional(targets[..], nr[..], asked, n)
    {
      hide Proportional;
      ghost var nr0, asked0 := nr[..], asked;
      Sweep();
      SweptKeeps(targets[..], nr0, asked0, nr[..], asked, n);
    }

    /** The loop of shrink_lruvec.  It rebalances at most once, and never if scan_adjusted was set
        before: after the first sweep, or the first by which enough is reclaimed (`before` is what was
        reclaimed before that sweep), if both types have something left.  It leaves when the three lists
        it watches are done, or when enough is reclaimed and one type has nothing left.  `budgets` are
        the targets, or what the rebalancing made of them: the active anonymous list has something left
        exactly if its budget lasts for more sweeps than were made, which are as many as the budgets of
        the watched lists last, unless the loop stops because enough is reclaimed. */
    method Shrink(nrToReclaim: nat, adjusted: bool)
      returns (n: Nudge, ghost before: nat, ghost reached: nat, ghost budgets: seq<nat>, ghost sweeps: nat, ghost stopped: bool)
      requires Valid() && nr[..] == targets[..] && asked == [0, 0, 0, 0] && nrReclaimed == got == 0
      modifies this`asked, this`nrReclaimed, this`got, nr
      ensures nrReclaimed == got && before <= reached <= got
      ensures n.Once? ==> nrToReclaim <= reached && (before < nrToReclaim || FirstSweep(targets[..], n.asked))
      ensures Valid() && Proportional(targets[..], nr[..], asked, n) && (adjusted ==> n.NotYet?)
      ensures SweptFrom(budgets, sweeps, nr[..]) && sweeps <= Watched(budgets) && (n.NotYet? ==> budgets == targets[..])
      ensures n.Once? ==> |n.asked| == 4 && forall l :: 0 <= l < 4 ==> n.asked[l] + budgets[l] == asked[l] + nr[l]
      ensures 0 < nr[ACTIVE_ANON] <==> sweeps < Sweeps(budgets[ACTIVE_ANON])
      ensures !stopped && !adjusted && n.NotYet? ==> nrReclaimed < nrToReclaim || asked == [0, 0, 0, 0]
      ensures !stopped ==> sweeps == Watched(budgets) && nr[INACTIVE_ANON] == nr[INACTIVE_FILE] == nr[ACTIVE_FILE] == 0
      ensures stopped ==>
        (!adjusted && n.NotYet? && nrToReclaim <= nrReclaimed && (Pair(nr[..], INACTIVE_ANON) == 0 || Pair(nr[..], INACTIVE_FILE) == 0))
    {
      hide Proportional, SweptFrom, Sweeps, Watched, FirstSweep, Shrinker.Left;
      Untouched(targets[..], nr[..], asked);
      n, before, reached, stopped := NotYet, 0, 0, false;
      budgets, sweeps := nr[..], 0;
      NotSwept(nr[..]);
      var scanAdjusted := adjusted;
      while nr[INACTIVE_ANON] != 0 || nr[ACTIVE_FILE] != 0 || nr[INACTIVE_FILE] != 0
        invariant Valid() && Proportional(targets[..], nr[..], asked, n)
        invariant scanAdjusted == (adjusted || n.Once?) && (adjusted ==> n.NotYet?)
        invariant !stopped && nrReclaimed == got && before <= reached <= got && |asked| == 4
        invariant |budgets| == 4 && SweptFrom(budgets, sweeps, nr[..]) && sweeps <= Watched(budgets) && (n.NotYet? ==> budgets == targets[..])
        invariant n.Once? ==> |n.asked| == 4 && forall l :: 0 <= l < 4 ==> n.asked[l] + budgets[l] == asked[l] + nr[l]
        invariant n.NotYet? && !adjusted ==> nrReclaimed < nrToReclaim || (asked == [0, 0, 0, 0] && nr[..] == targets[..])
        invariant n.Once? ==> nrToReclaim <= reached && (before < nrToReclaim || FirstSweep(targets[..], n.asked))
        decreases Left()
      {
        if n.NotYet? { before := nrReclaimed; }
        ghost var nr0, asked0 := nr[..], asked;
        SweepOn(n);
        SweptFirst(targets[..], nr0, asked0, asked);
        OneMoreSweep(budgets, sweeps, nr0, nr[..]);
        sweeps := sweeps + 1;
        if n.NotYet? { reached := nrReclaimed; }
        if nrReclaimed < nrToReclaim || scanAdjusted { continue; }
        var nrFile, nrAnon := nr[INACTIVE_FILE] + nr[ACTIVE_FILE], nr[INACTIVE_ANON] + nr[ACTIVE_ANON];
        if nrFile == 0 || nrAnon == 0 {
          stopped := true;
          break;
        }
        n := Rebalance();
        budgets, sweeps := nr[..], 0;
        NotSwept(nr[..]);
        scanAdjusted := true;
      }
      LeftAfter(budgets, sweeps, nr[..], ACTIVE_ANON);
      if !stopped { AllSwept(budgets, sweeps, nr[..]); }
    }
  }

  lemma SweptKeeps(targets: seq<nat>, nr: seq<nat>, asked: seq<nat>, nr': seq<nat>, asked': seq<nat>, n: Nudge)
    requires |targets| == 4 && |nr| == 4 && |asked| == 4 && |nr'| == 4 && |asked'| == 4 && Proportional(targets, nr, asked, n)
    requires forall l :: 0 <= l < 4 ==> nr'[l] <= nr[l] && asked'[l] + nr'[l] == asked[l] + nr[l]
    ensures Proportional(targets, nr', asked', n)
  {
    hide Percent, Quota;
    if n.Once? {
      forall l | n.larger <= l <= n.larger + LRU_ACTIVE
        ensures asked'[l] <= targets[l]
      {
        QuotaBound(targets[l], n.percentage);
      }
    }
  }

  lemma Untouched(targets: seq<nat>, nr: seq<nat>, asked: seq<nat>)
    requires |targets| == 4 && nr == targets && asked == [0, 0, 0, 0]
    ensures Proportional(targets, nr, asked, NotYet)
  {
  }

  /** After a rebalancing each list of the larger type has been asked for no more than its quota, or
      than it had been asked before, and for exactly that much if it is drained. */
  lemma RequestsEnd(targets: seq<nat>, nr: seq<nat>, asked: seq<nat>, n: Nudge, l: nat)
    requires |targets| == 4 && |nr| == 4 && |asked| == 4 && n.Once? && Proportional(targets, nr, asked, n)
    requires n.larger <= l <= n.larger + LRU_ACTIVE
    ensures var smaller, quota := Other(n.larger), targets[l] * (100 - n.percentage) / 100;
      && asked[l] <= Max(n.asked[l], quota) && (asked[l] == Max(n.asked[l], quota) <==> nr[l] == 0)
      && n.percentage == (targets[smaller] + targets[smaller + 1] - n.asked[smaller] - n.asked[smaller + 1]) * 100 / (targets[smaller] + targets[smaller + 1] + 1)
      && ((n.larger == 0 && smaller == 2) || (n.larger == 2 && smaller == 0))
      && nr[smaller] == nr[smaller + 1] == 0
  {
  }

  /** A budget of the active anonymous list alone is never touched. */
  method OnlyActiveAnon(budget: nat, nrToReclaim: nat, adjusted: bool) returns (s: Shrinker, n: Nudge)
    requires 0 < budget
    ensures s.Valid() && n.NotYet? && s.targets[..] == s.nr[..] == [0, budget, 0, 0] && s.asked == [0, 0, 0, 0]
  {
    var nr := new nat[4];
    nr[0], nr[1], nr[2], nr[3] := 0, budget, 0, 0;
    assert nr[..] == [0, budget, 0, 0];
    s := new Shrinker(nr);
    ghost var before, reached, budgets, sweeps, stopped;
    n, before, reached, budgets, sweeps, stopped := s.Shrink(nrToReclaim, adjusted);
  }

  /** shrink_lruvec without the balancing of the anonymous lists and the throttling at its end: what
      is asked of the lists are the budgets of get_scan_count, and after the rebalancing no more. */
  method Run(lruvec: Lruvec, swappiness: nat, sc: Control, nrToReclaim: nat)
    returns (s: Shrinker, n: Nudge, lruPages: nat, b: Balance, ap: nat, fp: nat, forced: bool)
    requires lruvec.Valid() && swappiness <= 200
    modifies lruvec`recentScanned, lruvec`recentRotated
    ensures fresh(s) && s.Valid() && Proportional(s.targets[..], s.nr[..], s.asked, n)
    ensures forall l :: 0 <= l < 4 ==> s.asked[l] <= s.targets[l] <= lruvec.size[l]
    ensures forall l :: 0 <= l < 4 ==>
      var shifted := lruvec.size[l] / Pow2(sc.priority);
      var scan := if shifted == 0 && forced then Min(lruvec.size[l], 32) else shifted;
      s.targets[l] == match b
        case Equal => scan
        case Fract => if l < 2 then scan * ap / (ap + fp + 1) else scan * fp / (ap + fp + 1)
        case AnonOnly => if l < 2 then scan else 0
        case FileOnly => if l < 2 then 0 else scan
    ensures n.NotYet? && s.nrReclaimed < nrToReclaim ==>
      forall l :: 0 <= l < 4 && l != ACTIVE_ANON ==> s.asked[l] == s.targets[l]
    ensures sc.globalReclaim && !sc.kswapd && sc.priority == DEF_PRIORITY ==> n.NotYet?
  {
    hide Pow2, Proportional, SweptFrom, Sweeps, Watched, FirstSweep, Budget, Included, Forced, Pair, Lruvec.Halved;
    var nr := new nat[4];
    lruPages, b, ap, fp, forced := lruvec.GetScanCount(swappiness, sc, nr);
    s := new Shrinker(nr);
    ghost var targets := s.targets[..];
    ghost var before, reached, budgets, sweeps, stopped;
    n, before, reached, budgets, sweeps, stopped := s.Shrink(nrToReclaim, sc.globalReclaim && !sc.kswapd && sc.priority == DEF_PRIORITY);
    assert s.targets[..] == targets;
    AskedBound(s.targets[..], s.nr[..], s.asked, n);
  }

  lemma AskedBound(targets: seq<nat>, nr: seq<nat>, asked: seq<nat>, n: Nudge)
    requires |targets| == 4 && |nr| == 4 && |asked| == 4 && Proportional(targets, nr, asked, n)
    ensures forall l :: 0 <= l < 4 ==> asked[l] <= targets[l]
    ensures n.NotYet? ==> forall l :: 0 <= l < 4 ==> asked[l] + nr[l] == targets[l]
  {
    hide Percent, Quota;
  }
}
