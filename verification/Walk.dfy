/** What the walks down the page-table levels share. */
module Walk {
  import opened FreePgtables
  import opened Words

  /** Every entry hangs below tables of all levels, so an absent table means no entries. */
  ghost predicate Hangs(g: Geometry, tables: set<Table>, keys: set<int>)
    requires g.Valid()
  {
    forall k, l :: k in keys && 1 <= l < g.Root() ==> Table(l, AlignDown(k, g.spans[l])) in tables
  }

  /** One entry of a table of level l: either its own table is there, or the range holds nothing. */
  lemma AbsentHoldsNothing(g: Geometry, tables: set<Table>, keys: set<int>, l: int, a: int, next: int)
    requires g.Valid() && Hangs(g, tables, keys) && 1 <= l < g.Root() && 0 <= a < next <= AlignDown(a, g.spans[l]) + g.spans[l]
    requires Table(l, AlignDown(a, g.spans[l])) !in tables
    ensures forall k :: k in keys ==> !(a <= k < next)
  {
    forall k | k in keys && a <= k < next
      ensures false
    {
      assert Table(l, AlignDown(k, g.spans[l])) in tables;
      AlignDownFacts(a, g.spans[l]);
      AlignDownUnique(k, AlignDown(a, g.spans[l]), g.spans[l]);
    }
  }

  /** Steps between entries of one level keep the range page-aligned and inside the table. */
  lemma EntryBounds(g: Geometry, l: int, a: int, end: int)
    requires g.Valid() && g.spans[0] == PAGE_SIZE && 2 <= l < |g.spans| && 0 <= a < end < g.word && a % PAGE_SIZE == 0 && end % PAGE_SIZE == 0
    ensures var next := g.AddrEnd(g.spans[l - 1], a, end);
      (next - a) % PAGE_SIZE == 0 && a < next <= end && next % PAGE_SIZE == 0 && next <= AlignDown(a, g.spans[l - 1]) + g.spans[l - 1]
  {
    AddrEndMeaning(g, l - 1, a, end);
    var c := g.spans[l - 1];
    AlignDownFacts(a, c);
    NextAligned(AlignDown(a, c), c);
    assert g.Nested(0, l - 1);
    DivisorOfMultiple(AlignDown(a, c) + c, PAGE_SIZE, c);
    hide AlignDown, Geometry.AddrEnd, Geometry.Valid;
    SumOfMultiples(g.AddrEnd(c, a, end), a, PAGE_SIZE);
  }
}
