/** Machine words and the geometry of a page table of any depth.

    An address is a word: an integer in [0, word).  As an end or a ceiling the word 0 stands for
    the top of the address space, so Top maps it to `word`. */
module Words {
  const PAGE_SIZE: int := 4096

  /** spans[0] is the size of a page, spans[l] the size covered by one table of level l:
      level 1 is the table of PTEs (PMD_SIZE), level 2 the table of PMDs (PUD_SIZE), and so on.
      The last one is the root (PGD), which covers the whole address space. */
  datatype Geometry = Geometry(word: int, spans: seq<int>) {

    ghost predicate Valid() {
      && 3 <= |spans| && spans[|spans| - 1] == word
      && (forall l {:trigger spans[l]} :: 0 <= l < |spans| ==> 0 < spans[l] <= word)
      && (forall l, m :: 0 <= l <= m < |spans| ==> Nested(l, m))
      && (forall l :: 0 <= l < |spans| ==> FillsWord(l))
    }

    function Root(): int { |spans| - 1 }

    /** A table of level m holds a whole number of tables of level l. */
    ghost predicate Nested(l: int, m: int)
      requires 0 <= l < |spans| && 0 <= m < |spans|
    { 0 < spans[l] && spans[m] % spans[l] == 0 }

    ghost predicate FillsWord(l: int)
      requires 0 <= l < |spans|
    { 0 < spans[l] && word % spans[l] == 0 }

    ghost predicate Word(x: int) { 0 <= x < word }

    /** What a word means when it is the end of a range. */
    function Top(x: int): (t: int) { if x == 0 then word else x }

    /** `x - 1` on unsigned words. */
    function Dec(x: int): int { if x == 0 then word - 1 else x - 1 }

    /** `x + d` on unsigned words. */
    function Add(x: int, d: int): int
      requires 0 < word
    { (x + d) % word }

    /** pmd_addr_end and its relatives: the end of the entry of size `s` that holds `addr`, cut at
        `end`; the comparison is on "- 1" so that a wrapped boundary counts as the top. */
    function AddrEnd(s: int, addr: int, end: int): int
      requires 0 < s && 0 < word
    {
      var boundary := AlignDown(addr + s, s) % word;
      if Dec(boundary) < Dec(end) then boundary else end
    }
  }

  /** `a & ~(s - 1)` for a power of two s, stated for any size. */
  function AlignDown(a: int, s: int): int
    requires 0 < s
  { a - a % s }

  lemma MulMonotone(s: int, a: int, b: int)
    requires 0 < s
    ensures a <= b ==> s * a <= s * b
  {
  }

  lemma StartNonNegative(addr: int, s: int)
    requires 0 < s && 0 <= addr
    ensures 0 <= AlignDown(addr, s)
  {
    assert addr % s <= addr;
  }

  /** Multiples of s are at least s apart. */
  lemma MultiplesApart(x: int, y: int, s: int)
    requires 0 < s && x % s == 0 && y % s == 0 && x < y
    ensures x + s <= y
  {
    var p, q := x / s, y / s;
    assert x == s * p && y == s * q;
    MulMonotone(s, q, p);
    MulMonotone(s, p + 1, q);
  }

  lemma DivisorOfMultiple(x: int, s: int, t: int)
    requires 0 < s && 0 < t && x % t == 0 && t % s == 0
    ensures x % s == 0
  {
    var k, q := t / s, x / t;
    assert x == t * q && t == s * k;
    assert x == s * (k * q) by { assert (s * k) * q == s * (k * q); }
    MultipleMod(k * q, s);
  }

  lemma MultipleMod(k: int, s: int)
    requires 0 < s
    ensures (s * k) % s == 0
  {
    var r := (s * k) % s;
    var q := (s * k) / s;
    assert s * k == s * q + r;
    assert r == s * (k - q);
    MulMonotone(s, 1, k - q);
    MulMonotone(s, k - q, -1);
  }

  lemma SumOfMultiples(x: int, y: int, s: int)
    requires 0 < s && x % s == 0 && y % s == 0
    ensures (x + y) % s == 0 && (x - y) % s == 0
  {
    assert x + y == s * (x / s + y / s) && x - y == s * (x / s - y / s);
    MultipleMod(x / s + y / s, s);
    MultipleMod(x / s - y / s, s);
  }

  lemma AlignDownFacts(a: int, s: int)
    requires 0 < s
    ensures AlignDown(a, s) % s == 0 && AlignDown(a, s) <= a < AlignDown(a, s) + s
    ensures AlignDown(a + s, s) == AlignDown(a, s) + s
  {
    assert a - a % s == s * (a / s);
    MultipleMod(a / s, s);
    SumOfMultiples(AlignDown(a, s), s, s);
    if AlignDown(a + s, s) < AlignDown(a, s) + s { AlignDownIs(a + s, s); MultiplesApart(AlignDown(a + s, s), AlignDown(a, s) + s, s); }
    if AlignDown(a + s, s) > AlignDown(a, s) + s { AlignDownIs(a + s, s); MultiplesApart(AlignDown(a, s) + s, AlignDown(a + s, s), s); }
  }

  lemma AlignDownIs(a: int, s: int)
    requires 0 < s
    ensures AlignDown(a, s) % s == 0
  {
    assert a - a % s == s * (a / s);
    MultipleMod(a / s, s);
  }

  /** The aligned block that holds an address is the only one. */
  lemma AlignDownUnique(a: int, b: int, s: int)
    requires 0 < s && b % s == 0 && b <= a < b + s
    ensures AlignDown(a, s) == b
  {
    AlignDownFacts(a, s);
    var c := AlignDown(a, s);
    if c < b { MultiplesApart(c, b, s); }
    if b < c { MultiplesApart(b, c, s); }
  }

  /** The small block that holds x lies inside the large block that holds x. */
  lemma SubBlock(x: int, c: int, start: int, s: int)
    requires 0 < c && 0 < s && s % c == 0 && start % s == 0 && start <= x < start + s
    ensures start <= AlignDown(x, c) <= x < AlignDown(x, c) + c <= start + s
  {
    var b := AlignDown(x, c);
    AlignDownFacts(x, c);
    DivisorOfMultiple(start, c, s);
    SumOfMultiples(start, s, c);
    if b < start { MultiplesApart(b, start, c); }
    MultiplesApart(b, start + s, c);
  }

  lemma NextAligned(b: int, c: int)
    requires 0 < c && b % c == 0
    ensures (b + c) % c == 0 && AlignDown(b + c, c) == b + c
  {
    SumOfMultiples(b, c, c);
  }

  /** In numbers, AddrEnd is the smaller of the block's end and the range's end. */
  lemma AddrEndMeaning(g: Geometry, l: int, addr: int, end: int)
    requires g.Valid() && 0 <= l < |g.spans|
    requires g.Word(addr) && g.Word(end) && addr < g.Top(end)
    ensures g.Word(g.AddrEnd(g.spans[l], addr, end))
    ensures var blockEnd := AlignDown(addr, g.spans[l]) + g.spans[l];
            g.Top(g.AddrEnd(g.spans[l], addr, end)) == if blockEnd < g.Top(end) then blockEnd else g.Top(end)
    ensures addr < g.Top(g.AddrEnd(g.spans[l], addr, end)) <= g.Top(end) <= g.word
  {
    var s := g.spans[l];
    assert g.FillsWord(l);
    AlignDownFacts(addr, s);
    var b := AlignDown(addr, s) + s;
    BlockFits(addr, s, g.word);
    assert AlignDown(addr + s, s) % g.word == if b == g.word then 0 else b by {
      if b == g.word { SelfMod(b); } else { SmallMod(b, g.word); }
    }
  }

  lemma BlockFits(addr: int, s: int, word: int)
    requires 0 < s && 0 <= addr < word && word % s == 0
    ensures AlignDown(addr, s) + s <= word
  {
    AlignDownFacts(addr, s);
    MultiplesApart(AlignDown(addr, s), word, s);
  }

  lemma SmallMod(x: int, m: int)
    requires 0 <= x < m
    ensures x % m == x
  {
  }

  lemma SelfMod(m: int)
    requires 0 < m
    ensures m % m == 0
  {
  }
}
