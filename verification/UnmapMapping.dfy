/** zap_page_range_single, and unmap_mapping_range: the part of every mapping of a file that shows a
    hole in it is unmapped. */
module UnmapMapping {
  import opened Arith
  import opened MmuGather
  import opened Words
  import opened ZapRange

  /** Sizes of the batches, and how many batch pages a gather may link. */
  datatype Slots = Slots(local: nat, page: nat, batches: nat)

  /** unmap_single_vma: only the part of the range inside the VMA. */
  method UnmapSingleVma(mm: Mm, tlb: Gather, vmStart: int, vmEnd: int, start: int, end: int, d: Details)
    requires mm.Valid() && tlb.Valid() && tlb.Room()
    requires 0 <= vmStart < vmEnd < mm.g.word && start <= end
    requires vmStart % PAGE_SIZE == 0 && vmEnd % PAGE_SIZE == 0 && start % PAGE_SIZE == 0 && end % PAGE_SIZE == 0
    modifies mm`ptes, mm`anon, mm`file, mm`swap, mm`slots, mm`dirtied, tlb, tlb.chain
    ensures mm.Valid() && tlb.Valid() && tlb.Room() && tlb.cached <= old(tlb.cached)
    ensures fresh(set b | b in tlb.chain && b !in old(tlb.chain))
    ensures mm.ptes == Left(old(mm.ptes), d, Max(vmStart, start), Min(vmEnd, end))
    ensures mm.Books() == old(mm.Books()).Take(Total(old(mm.ptes), d, Max(vmStart, start), Min(vmEnd, end)))
    ensures tlb.Removed() == old(tlb.Removed()) + Total(old(mm.ptes), d, Max(vmStart, start), Min(vmEnd, end)).refs
  {
    hide Gather.Chained, Gather.FilledInOrder, Gather.Safe, Flatten, Gather.Removed, At;
    var from := Max(vmStart, start);
    if from >= vmEnd { return; }
    var to := Min(vmEnd, end);
    if to <= vmStart { return; }
    if from != to {
      mm.ZapLevel(mm.g.Root(), tlb, from, to, d);
    }
  }

  lemma SingleTornDown(mm: Mm, vmStart: int, vmEnd: int, address: int, end: int, d: Details)
    requires mm.Valid() && vmStart % PAGE_SIZE == 0 && vmEnd % PAGE_SIZE == 0 && address % PAGE_SIZE == 0 && end % PAGE_SIZE == 0
    ensures var from, to := Max(vmStart, address), Min(vmEnd, end); var t := Total(mm.ptes, d, from, to);
      TornDown(mm.ptes, Left(mm.ptes, d, from, to), d, from, to, mm.Books(), mm.Books().Take(t)) && RefsOf(mm.ptes, d, from, to, t.refs)
  {
    hide TornDown, RefsOf, Total, Left;
    TornDownIs(mm.ptes, d, Max(vmStart, address), Min(vmEnd, end), mm.Books());
  }

  /** zap_page_range_single: when it returns, every reference of a cleared entry has been dropped,
      once and in address order, and no translation of a dropped reference is cached any more. */
  method ZapPageRangeSingle(mm: Mm, vmStart: int, vmEnd: int, address: int, size: int, d: Details, slots: Slots, cached: set<Ref>)
    returns (freed: seq<Ref>, left: set<Ref>)
    requires mm.Valid() && 0 < slots.local && 0 < slots.page
    requires 0 <= vmStart < vmEnd < mm.g.word && 0 <= size
    requires vmStart % PAGE_SIZE == 0 && vmEnd % PAGE_SIZE == 0 && address % PAGE_SIZE == 0 && size % PAGE_SIZE == 0
    modifies mm`ptes, mm`anon, mm`file, mm`swap, mm`slots, mm`dirtied
    ensures mm.Valid()
    ensures mm.ptes == Left(old(mm.ptes), d, Max(vmStart, address), Min(vmEnd, address + size))
    ensures mm.Books() == old(mm.Books()).Take(Total(old(mm.ptes), d, Max(vmStart, address), Min(vmEnd, address + size)))
    ensures freed == Total(old(mm.ptes), d, Max(vmStart, address), Min(vmEnd, address + size)).refs
    ensures var from, to := Max(vmStart, address), Min(vmEnd, address + size);
      TornDown(old(mm.ptes), mm.ptes, d, from, to, old(mm.Books()), mm.Books()) && RefsOf(old(mm.ptes), d, from, to, freed)
    ensures left <= cached && forall r :: r in freed ==> r !in left
  {
    hide TornDown, RefsOf, Total, Left, Gather.Chained, Gather.FilledInOrder, Flatten;
    var end := address + size;
    SingleTornDown(mm, vmStart, vmEnd, address, end, d);
    var tlb := new Gather(false, mm.g.word, slots.local, slots.page, slots.batches, cached);
    assert tlb.Removed() == [];
    UnmapSingleVma(mm, tlb, vmStart, vmEnd, address, end, d);
    var pages := tlb.Finish();
    freed, left := tlb.freed, tlb.cached;
  }

  // ---- unmap_mapping_range

  /** One VMA that maps the file, and the address space it is in. */
  datatype FileVma = FileVma(mm: Mm, start: int, end: int, pgoff: int) {
    function Pages(): int { (end - start) / PAGE_SIZE }

    /** The page of the file that address a shows. */
    function Index(a: int): int { pgoff + (a - start) / PAGE_SIZE }

    predicate WellFormed(word: int)
    {
      && 0 <= start < end < mm.g.word && start % PAGE_SIZE == 0 && end % PAGE_SIZE == 0
      && 0 <= pgoff && pgoff + Pages() <= word
    }

    predicate Shows(a: int, first: int, last: int) { start <= a < end && first <= Index(a) <= last }
  }

  /** The last page index of the hole, with the word arithmetic of unmap_mapping_range: an index has
      `word` values, a file offset is a 64-bit loff_t. */
  function LastIndex(word: int, holebegin: int, holelen: int): int
    requires 0 < word
  {
    var hba := holebegin / PAGE_SIZE % word;
    var hlen := (holelen + PAGE_SIZE - 1) / PAGE_SIZE % word;
    var holeend := (holebegin + holelen + PAGE_SIZE - 1) / PAGE_SIZE;
    var cut := if word < 0x1_0000_0000_0000_0000 && holeend >= word then (word - 1 - hba + 1) % word else hlen;
    var last := (hba + cut - 1) % word;
    if last < hba then word - 1 else last
  }

  lemma LastIndexBound(word: int, holebegin: int, holelen: int)
    requires 0 < word
    ensures holebegin / PAGE_SIZE % word <= LastIndex(word, holebegin, holelen) < word
  {
  }

  /** Where the hole ends in pages, with the begin's offset and without it. */
  lemma HoleEnds(holebegin: int, holelen: int)
    requires 0 <= holebegin && 0 <= holelen
    ensures var hba, n, e := holebegin / PAGE_SIZE, (holelen + PAGE_SIZE - 1) / PAGE_SIZE, (holebegin + holelen + PAGE_SIZE - 1) / PAGE_SIZE;
      && hba + n <= e <= hba + n + 1 && (holelen == 0 <==> n == 0)
      && (holebegin % PAGE_SIZE == 0 ==> e == hba + n)
      && (0 < holelen ==> e == (holebegin + holelen - 1) / PAGE_SIZE + 1)
      && (0 < holelen ==> (e == hba + n <==> holebegin % PAGE_SIZE + (holelen - 1) % PAGE_SIZE < PAGE_SIZE))
  {
  }

  lemma LastIndexMeaning(word: int, holebegin: int, holelen: int, hba: int, n: int, e: int)
    requires (word == 0x1_0000_0000 || word == 0x1_0000_0000_0000_0000) && 0 <= hba < word && 0 <= n && hba + n <= e <= hba + n + 1
    requires hba == holebegin / PAGE_SIZE && n == (holelen + PAGE_SIZE - 1) / PAGE_SIZE && e == (holebegin + holelen + PAGE_SIZE - 1) / PAGE_SIZE
    requires word == 0x1_0000_0000_0000_0000 ==> e < word
    ensures holebegin / PAGE_SIZE % word == hba
    ensures LastIndex(word, holebegin, holelen) == if n == 0 || e >= word then word - 1 else hba + n - 1
  {
    SmallMod(hba, word);
    if e < word {
      SmallMod(n, word);
      if 0 < hba + n { SmallMod(hba + n - 1, word); } else { assert (-1) % word == word - 1; }
    } else if hba == 0 {
      SelfMod(word);
      assert (-1) % word == word - 1;
    } else {
      SmallMod(word - hba, word);
      SmallMod(word - 1, word);
    }
  }

  /** The offsets that a file can have: a loff_t, in pages that an index can number. */
  predicate InFile(word: int, holebegin: int, holelen: int) {
    && (word == 0x1_0000_0000 || word == 0x1_0000_0000_0000_0000)
    && 0 <= holebegin < word * PAGE_SIZE && 0 <= holelen && holebegin + holelen + PAGE_SIZE - 1 < 0x8000_0000_0000_0000
  }

  /** Page i of the file has a byte of the hole; a length of 0 means to the end of the file. */
  predicate MeetsHole(i: int, holebegin: int, holelen: int) {
    holebegin < (i + 1) * PAGE_SIZE && (holelen == 0 || i * PAGE_SIZE < holebegin + holelen)
  }

  /** For a page-aligned begin, the index range is the set of pages that the hole touches; a length
      of zero, and an end past the largest index, mean the end of the file. */
  lemma HoleIndices(word: int, holebegin: int, holelen: int, i: int)
    requires InFile(word, holebegin, holelen) && 0 <= i < word && holebegin % PAGE_SIZE == 0
    ensures holebegin / PAGE_SIZE % word <= i <= LastIndex(word, holebegin, holelen) <==> MeetsHole(i, holebegin, holelen)
  {
    var hba := holebegin / PAGE_SIZE;
    var n := (holelen + PAGE_SIZE - 1) / PAGE_SIZE;
    HoleEnds(holebegin, holelen);
    LastIndexMeaning(word, holebegin, holelen, hba, n, (holebegin + holelen + PAGE_SIZE - 1) / PAGE_SIZE);
    hide LastIndex;
  }

  /** For any begin, the last index is that of the hole's last byte if and only if the two partial pages
      at its ends fit into one, or the index overflows: the length is rounded up without the begin's
      offset. */
  lemma UnalignedHole(word: int, holebegin: int, holelen: int)
    requires InFile(word, holebegin, holelen) && 0 < holelen
    ensures var lastByte := (holebegin + holelen - 1) / PAGE_SIZE;
      LastIndex(word, holebegin, holelen) == Min(lastByte, word - 1) <==>
        (holebegin % PAGE_SIZE + (holelen - 1) % PAGE_SIZE < PAGE_SIZE || word <= lastByte + 1)
  {
    HoleEnds(holebegin, holelen);
    LastIndexMeaning(word, holebegin, holelen, holebegin / PAGE_SIZE, (holelen + PAGE_SIZE - 1) / PAGE_SIZE,
      (holebegin + holelen + PAGE_SIZE - 1) / PAGE_SIZE);
    hide LastIndex;
  }

  /** One page's worth from the second byte on: the last byte lies in page 1, which is not unmapped. */
  lemma LastByteMissed()
    ensures var word := 0x1_0000_0000_0000_0000;
      InFile(word, 1, PAGE_SIZE) && MeetsHole(1, 1, PAGE_SIZE) && LastIndex(word, 1, PAGE_SIZE) == 0
  {
  }

  /** Some of the first n VMAs is in this address space and shows a page of the hole at a. */
  ghost predicate Hit(vmas: seq<FileVma>, n: int, mm: Mm, a: int, first: int, last: int)
    requires 0 <= n <= |vmas|
  {
    exists i :: 0 <= i < n && vmas[i].mm == mm && vmas[i].Shows(a, first, last)
  }

  /** Some VMA in this address space shows at a, page-aligned, a page that has a byte of the hole. */
  ghost predicate HitInBytes(vmas: seq<FileVma>, mm: Mm, a: int, holebegin: int, holelen: int) {
    exists i :: 0 <= i < |vmas| && vmas[i].mm == mm && vmas[i].start <= a < vmas[i].end && MeetsHole(vmas[i].Index(a), holebegin, holelen)
  }

  lemma HitIsInBytes(vmas: seq<FileVma>, word: int, mm: Mm, a: int, holebegin: int, holelen: int)
    requires InFile(word, holebegin, holelen) && holebegin % PAGE_SIZE == 0
    requires forall i {:trigger vmas[i]} :: 0 <= i < |vmas| ==> vmas[i].WellFormed(word)
    ensures Hit(vmas, |vmas|, mm, a, holebegin / PAGE_SIZE % word, LastIndex(word, holebegin, holelen)) <==> HitInBytes(vmas, mm, a, holebegin, holelen)
  {
    forall i | 0 <= i < |vmas| && vmas[i].start <= a < vmas[i].end
      ensures vmas[i].Shows(a, holebegin / PAGE_SIZE % word, LastIndex(word, holebegin, holelen)) <==> MeetsHole(vmas[i].Index(a), holebegin, holelen)
    {
      IndexInWord(vmas[i], word, a);
      HoleIndices(word, holebegin, holelen, vmas[i].Index(a));
      hide LastIndex, MeetsHole, FileVma.Index;
    }
    hide LastIndex, MeetsHole, FileVma.Index, InFile;
  }

  lemma IndexInWord(v: FileVma, word: int, a: int)
    requires v.WellFormed(word) && v.start <= a < v.end
    ensures 0 <= v.Index(a) < word
  {
  }

  /** The entries of mm that are left of `was` when the first n VMAs have been handled. */
  ghost predicate Punched(vmas: seq<FileVma>, n: int, mm: Mm, was: Entries, now: Entries, d: Details, first: int, last: int)
    requires 0 <= n <= |vmas|
  {
    forall a :: (a in now <==> a in was && !(Hit(vmas, n, mm, a, first, last) && Zapped(was[a], d))) && (a in now ==> a in was && now[a] == was[a])
  }

  /** The same in bytes: an entry goes exactly if its address shows a page that has a byte of the hole,
      and, unless copies go too, it holds a page of this file or one that is not counted; a private copy
      stays, and so does what is swapped out. */
  ghost predicate PunchedInBytes(vmas: seq<FileVma>, mm: Mm, was: Entries, now: Entries, mapping: nat, holebegin: int, holelen: int, evenCows: bool) {
    forall a ::
      && (a in now ==> a in was && now[a] == was[a])
      && (a in was && !HitInBytes(vmas, mm, a, holebegin, holelen) ==> a in now)
      && (a in was && HitInBytes(vmas, mm, a, holebegin, holelen) ==>
           (a !in now <==> evenCows || (was[a].Present? && (!was[a].normal || was[a].mapping == FileOf(mapping)))))
  }

  lemma InBytes(vmas: seq<FileVma>, word: int, mm: Mm, was: Entries, now: Entries, mapping: nat, holebegin: int, holelen: int, evenCows: bool)
    requires InFile(word, holebegin, holelen) && holebegin % PAGE_SIZE == 0
    requires forall i {:trigger vmas[i]} :: 0 <= i < |vmas| ==> vmas[i].WellFormed(word)
    requires Punched(vmas, |vmas|, mm, was, now, if evenCows then Everything else OnlyOf(mapping), holebegin / PAGE_SIZE % word, LastIndex(word, holebegin, holelen))
    ensures PunchedInBytes(vmas, mm, was, now, mapping, holebegin, holelen, evenCows)
  {
    forall a
      ensures Hit(vmas, |vmas|, mm, a, holebegin / PAGE_SIZE % word, LastIndex(word, holebegin, holelen)) <==> HitInBytes(vmas, mm, a, holebegin, holelen)
    {
      HitIsInBytes(vmas, word, mm, a, holebegin, holelen);
    }
    hide Hit, HitInBytes, LastIndex, InFile;
  }

  /** Without even_cows private copies and swapped pages stay everywhere. */
  lemma CopiesStay(vmas: seq<FileVma>, mm: Mm, was: Entries, now: Entries, mapping: nat, holebegin: int, holelen: int, a: int)
    requires PunchedInBytes(vmas, mm, was, now, mapping, holebegin, holelen, false)
    requires a in was && (was[a].Swapped? || (was[a].Present? && was[a].normal && was[a].mapping.AnonVma?))
    ensures a in now && now[a] == was[a]
  {
    hide HitInBytes;
  }

  /** The byte range computed from clipped page indices shows exactly the pages of the hole. */
  lemma RangeShowsHole(v: FileVma, word: int, first: int, last: int, a: int)
    requires v.WellFormed(word) && first <= v.pgoff + v.Pages() - 1 && v.pgoff <= last && first <= last && a % PAGE_SIZE == 0
    ensures var zba, zea := Max(first, v.pgoff), Min(last, v.pgoff + v.Pages() - 1);
      var from, to := (zba - v.pgoff) * PAGE_SIZE + v.start, (zea - v.pgoff + 1) * PAGE_SIZE + v.start;
      && v.start <= from <= to <= v.end && from % PAGE_SIZE == 0 && to % PAGE_SIZE == 0
      && (from <= a < to <==> v.Shows(a, first, last))
  {
  }

  /** One VMA's part of the hole is cut out of its address space. */
  ghost predicate CutOut(v: FileVma, was: Entries, now: Entries, d: Details, first: int, last: int) {
    forall a :: (a in now <==> a in was && !(v.Shows(a, first, last) && Zapped(was[a], d))) && (a in now ==> a in was && now[a] == was[a])
  }

  lemma PunchNext(vmas: seq<FileVma>, n: int, mm: Mm, was: Entries, now: Entries, now': Entries, d: Details, first: int, last: int)
    requires 0 <= n < |vmas| && Punched(vmas, n, mm, was, now, d, first, last)
    requires if vmas[n].mm == mm then CutOut(vmas[n], now, now', d, first, last) else now' == now
    ensures Punched(vmas, n + 1, mm, was, now', d, first, last)
  {
    forall a
      ensures (a in now' <==> a in was && !(Hit(vmas, n + 1, mm, a, first, last) && Zapped(was[a], d))) && (a in now' ==> a in was && now'[a] == was[a])
    {
      HitNext(vmas, n, mm, a, first, last);
      hide Hit, Zapped, FileVma.Shows;
    }
  }

  lemma HitNext(vmas: seq<FileVma>, n: int, mm: Mm, a: int, first: int, last: int)
    requires 0 <= n < |vmas|
    ensures Hit(vmas, n + 1, mm, a, first, last) <==> Hit(vmas, n, mm, a, first, last) || (vmas[n].mm == mm && vmas[n].Shows(a, first, last))
  {
  }

  lemma RangeCut(v: FileVma, was: Entries, d: Details, from: int, to: int, first: int, last: int)
    requires forall a :: a in was ==> (from <= a < to <==> v.Shows(a, first, last))
    ensures CutOut(v, was, Left(was, d, from, to), d, first, last)
  {
    hide FileVma.Shows, Zapped;
  }

  lemma NothingShown(v: FileVma, word: int, was: Entries, d: Details, first: int, last: int)
    requires v.WellFormed(word) && (v.pgoff > last || v.pgoff + v.Pages() - 1 < first)
    ensures CutOut(v, was, was, d, first, last)
  {
  }

  /** One turn of unmap_mapping_range_tree; the interval tree yields only VMAs that meet the hole. */
  method UnmapOne(v: FileVma, word: int, first: int, last: int, d: Details, slots: Slots)
    requires v.mm.Valid() && v.WellFormed(word) && first <= last && 0 < slots.local && 0 < slots.page
    modifies v.mm`ptes, v.mm`anon, v.mm`file, v.mm`swap, v.mm`slots, v.mm`dirtied
    ensures v.mm.Valid() && CutOut(v, old(v.mm.ptes), v.mm.ptes, d, first, last)
  {
    hide TornDown, RefsOf, Total, Left;
    var vba, vea := v.pgoff, v.pgoff + v.Pages() - 1;
    if vba > last || vea < first {
      NothingShown(v, word, v.mm.ptes, d, first, last);
      hide CutOut;
      return;
    }
    var zba, zea := first, last;
    if zba < vba { zba := vba; }
    if zea > vea { zea := vea; }
    var from, to := (zba - vba) * PAGE_SIZE + v.start, (zea - vba + 1) * PAGE_SIZE + v.start;
    ghost var was := v.mm.ptes;
    forall a | a in was
      ensures from <= a < to <==> v.Shows(a, first, last)
      ensures v.start <= from <= to <= v.end && from % PAGE_SIZE == 0 && to % PAGE_SIZE == 0
    {
      RangeShowsHole(v, word, first, last, a);
    }
    RangeShowsHole(v, word, first, last, 0);
    RangeCut(v, was, d, from, to, first, last);
    hide CutOut, FileVma.Shows, Left, Total, Aligned;
    var cached: set<Ref> := *;
    var freed, left := ZapPageRangeSingle(v.mm, v.start, v.end, from, to - from, d, slots, cached);
    assert v.mm.ptes == Left(was, d, Max(v.start, from), Min(v.end, to));
  }

  /** unmap_mapping_range over the VMAs of the file: in every address space, an entry goes exactly
      when its VMA shows a page of the hole at its address and, unless copies go too (even_cows), it
      maps a page of this file. */
  method UnmapMappingRange(vmas: seq<FileVma>, word: int, mapping: nat, holebegin: int, holelen: int, evenCows: bool, slots: Slots)
    requires 0 < word && 0 <= holebegin && 0 <= holelen && 0 < slots.local && 0 < slots.page
    requires forall i {:trigger vmas[i]} :: 0 <= i < |vmas| ==> vmas[i].mm.Valid() && vmas[i].WellFormed(word)
    modifies set i | 0 <= i < |vmas| :: vmas[i].mm
    ensures forall i {:trigger vmas[i]} :: 0 <= i < |vmas| ==> vmas[i].mm.Valid()
    ensures forall i {:trigger vmas[i]} :: 0 <= i < |vmas| ==>
      Punched(vmas, |vmas|, vmas[i].mm, old(vmas[i].mm.ptes), vmas[i].mm.ptes, if evenCows then Everything else OnlyOf(mapping),
              holebegin / PAGE_SIZE % word, LastIndex(word, holebegin, holelen))
    ensures InFile(word, holebegin, holelen) && holebegin % PAGE_SIZE == 0 ==> forall i {:trigger vmas[i]} :: 0 <= i < |vmas| ==>
      PunchedInBytes(vmas, vmas[i].mm, old(vmas[i].mm.ptes), vmas[i].mm.ptes, mapping, holebegin, holelen, evenCows)
  {
    var d := if evenCows then Everything else OnlyOf(mapping);
    var first, last := holebegin / PAGE_SIZE % word, LastIndex(word, holebegin, holelen);
    LastIndexBound(word, holebegin, holelen);
    forall i | 0 <= i < |vmas|
      ensures Punched(vmas, 0, vmas[i].mm, vmas[i].mm.ptes, vmas[i].mm.ptes, d, first, last)
    {
    }
    hide Punched, PunchedInBytes, LastIndex, InFile, CutOut, Hit, Mm.Valid, FileVma.WellFormed;
    var n := 0;
    while n < |vmas|
      invariant 0 <= n <= |vmas|
      invariant forall i {:trigger vmas[i]} :: 0 <= i < |vmas| ==> vmas[i].mm.Valid()
      invariant forall i {:trigger vmas[i]} :: 0 <= i < |vmas| ==> Punched(vmas, n, vmas[i].mm, old(vmas[i].mm.ptes), vmas[i].mm.ptes, d, first, last)
    {
      label before:
      UnmapOne(vmas[n], word, first, last, d, slots);
      forall i | 0 <= i < |vmas|
        ensures Punched(vmas, n + 1, vmas[i].mm, old(vmas[i].mm.ptes), vmas[i].mm.ptes, d, first, last)
      {
        PunchNext(vmas, n, vmas[i].mm, old(vmas[i].mm.ptes), old@before(vmas[i].mm.ptes), vmas[i].mm.ptes, d, first, last);
      }
      n := n + 1;
    }
    if InFile(word, holebegin, holelen) && holebegin % PAGE_SIZE == 0 {
      forall i | 0 <= i < |vmas|
        ensures PunchedInBytes(vmas, vmas[i].mm, old(vmas[i].mm.ptes), vmas[i].mm.ptes, mapping, holebegin, holelen, evenCows)
      {
        InBytes(vmas, word, vmas[i].mm, old(vmas[i].mm.ptes), vmas[i].mm.ptes, mapping, holebegin, holelen, evenCows);
      }
    }
  }
}
