/** The arena: a mapped region handed out from the front by a bump pointer, in cache-line steps.
    Sizes and addresses are 64-bit words; sums that leave the word wrap around. */
module Arena {
  import opened Bits

  const WORD := 0x1_0000_0000_0000_0000
  const LINE := 64
  const HUGE := 0x20_0000                   // a 2 MB page
  const NULL := 0

  // ---------------------------------------------------------------------------
  // Rounding up with a mask
  // ---------------------------------------------------------------------------

  /** `(n + a - 1) & ~(a - 1)` on 64-bit words. */
  function AlignUp(n: nat, a: nat): nat
    requires 1 <= a <= WORD
  {
    BitAnd((n + a - 1) % WORD, WORD - a)
  }

  lemma LineIsPower()
    ensures PowerOfTwo(LINE)
  {
    PowerFiveMore(0);
    PowerIsPowerOfTwo(6);
  }

  lemma HugeIsPower()
    ensures PowerOfTwo(HUGE)
  {
    PowerFiveMore(0); PowerFiveMore(5); PowerFiveMore(10); PowerFiveMore(15);
    PowerIsPowerOfTwo(21);
  }

  lemma WordIsPower()
    ensures PowerOfTwo(WORD)
  {
    PowerFiveMore(0); PowerFiveMore(5); PowerFiveMore(10); PowerFiveMore(15);
    PowerFiveMore(20); PowerFiveMore(25); PowerFiveMore(30); PowerFiveMore(35);
    PowerFiveMore(40); PowerFiveMore(45); PowerFiveMore(50); PowerFiveMore(55);
    assert Power(62) == 2 * Power(61) == 4 * Power(60);
    assert Power(64) == 2 * Power(63) == 4 * Power(62);
    PowerIsPowerOfTwo(64);
  }

  lemma CutToMultiple(x: nat, a: nat)
    requires a > 0
    ensures (x - x % a) % a == 0 && x - a < x - x % a <= x
    ensures x < a ==> x - x % a == 0
  {
    ModuloUnique(x - x % a, a, x / a, 0);
    if x < a { ModuloUnique(x, a, 0, x); }
  }

  lemma RoundedInWord(n: nat, a: nat, w: nat)
    requires n < w && PowerOfTwo(a) && PowerOfTwo(w) && a <= w
    ensures var r := BitAnd((n + a - 1) % w, w - a);
      if n + a - 1 < w then r % a == 0 && n <= r < n + a else r == 0
  {
    var x := (n + a - 1) % w;
    ModuloUnique(n + a - 1, w, if n + a - 1 < w then 0 else 1, if n + a - 1 < w then n + a - 1 else n + a - 1 - w);
    ClearLowBits(x, a, w);
    CutToMultiple(x, a);
  }

  /** Rounding gives the least multiple at or above `n`, unless the sum leaves the word: then it
      gives 0. */
  lemma AlignUpExactlyWhen(n: nat, a: nat)
    requires n < WORD && PowerOfTwo(a) && a <= WORD
    ensures n + a - 1 < WORD ==> AlignUp(n, a) % a == 0 && n <= AlignUp(n, a) < n + a
    ensures n + a - 1 >= WORD ==> AlignUp(n, a) == 0
    ensures n > 0 ==> (AlignUp(n, a) >= n <==> n + a - 1 < WORD)
  {
    WordIsPower();
    RoundedInWord(n, a, WORD);
  }

  method LineUp(n: nat) returns (up: nat)
    requires n < WORD
    ensures up == AlignUp(n, LINE)
    ensures if n <= WORD - LINE then up % LINE == 0 && n <= up < n + LINE else up == 0
  {
    LineIsPower();
    AlignUpExactlyWhen(n, LINE);
    up := AlignUp(n, LINE);
  }

  method HugeUp(n: nat) returns (up: nat)
    requires n < WORD
    ensures up == AlignUp(n, HUGE)
    ensures if n <= WORD - HUGE then up % HUGE == 0 && up % LINE == 0 && n <= up < n + HUGE else up == 0
  {
    HugeIsPower();
    AlignUpExactlyWhen(n, HUGE);
    if n <= WORD - HUGE { MultipleOfMultiple(AlignUp(n, HUGE), HUGE, LINE); }
    up := AlignUp(n, HUGE);
  }

  /** Rounding up to a page. */
  method PageUp(n: nat, page: nat) returns (up: nat)
    requires PowerOfTwo(page) && n + page <= WORD
    ensures up % page == 0 && n <= up < n + page
  {
    AlignUpExactlyWhen(n, page);
    up := AlignUp(n, page);
  }

  /** 64-bit addition. */
  function Add(x: nat, y: nat): (s: nat)
    requires x < WORD && y < WORD
    ensures s == (x + y) % WORD
  {
    if x + y < WORD then x + y else x + y - WORD
  }

  /** The watermark an allocation computes, against the bytes left. */
  lemma Bumped(used: nat, size: nat, n: nat, up: nat)
    requires used <= size && used % LINE == 0 && size % LINE == 0 && size + HUGE <= WORD && n < WORD
    requires if n <= WORD - LINE then up % LINE == 0 && n <= up < n + LINE else up == 0
    ensures up < WORD && var s := Add(used, up);
      if n <= WORD - LINE - used then
        s == used + up && s % LINE == 0 && used + n <= s && (s > size <==> n > size - used)
      else s <= size
  {}

  lemma LaidBehind(live: seq<Block>, base: nat, end: nat, n: nat, end': nat)
    requires Laid(live, base, end) && base <= end && end % LINE == 0 && end + n <= end'
    ensures Laid(live + [Block(end, n)], base, end')
  {}

  // ---------------------------------------------------------------------------
  // The arena
  // ---------------------------------------------------------------------------

  /** A block handed out: its address and the bytes asked for. */
  datatype Block = Block(start: nat, bytes: nat)

  /** What the operating system answered: nothing, or a region on huge or standard pages. */
  datatype Mapping = Failed | Mapped(base: nat, huge: bool)

  /** A region of the rounded size, in whole pages, below the top page of the address space. */
  ghost predicate MappingOk(mapping: Mapping, bytes: nat, sysPage: nat) {
    && PowerOfTwo(sysPage) && LINE <= sysPage <= HUGE
    && (mapping.Mapped? ==>
          && 0 < mapping.base && mapping.base % (if mapping.huge then HUGE else sysPage) == 0
          && mapping.base % LINE == 0
          && 0 < AlignUp(bytes, HUGE) && mapping.base + AlignUp(bytes, HUGE) + HUGE <= WORD)
  }

  /** Blocks on cache lines, one behind the other, between `base` and `end`. */
  ghost predicate Laid(live: seq<Block>, base: nat, end: nat) {
    && (forall i :: 0 <= i < |live| ==>
          live[i].start % LINE == 0 && base <= live[i].start && live[i].start + live[i].bytes <= end)
    && (forall i, j :: 0 <= i < j < |live| ==> live[i].start + live[i].bytes <= live[j].start)
  }

  class Arena {
    const base: nat
    const size: nat
    const useHuge: bool
    const sysPage: nat
    var used: nat
    ghost var live: seq<Block>               // handed out since the last reset

    /** What the mapping guarantees: whole pages, page-aligned, below the top of the address space. */
    ghost predicate Mapped() {
      && PowerOfTwo(sysPage) && LINE <= sysPage <= HUGE
      && 0 < base && base % PageSize() == 0 && base % LINE == 0
      && 0 < size && size % HUGE == 0 && size % LINE == 0 && base + size + HUGE <= WORD
    }

    ghost predicate Valid()
      reads this
    {
      Mapped() && used <= size && used % LINE == 0 && Laid(live, base, base + used)
    }

    function PageSize(): nat {
      if useHuge then HUGE else sysPage
    }

    constructor (size: nat, base: nat, useHuge: bool, sysPage: nat)
      requires PowerOfTwo(sysPage) && LINE <= sysPage <= HUGE
      requires 0 < base && base % (if useHuge then HUGE else sysPage) == 0 && base % LINE == 0
      requires 0 < size && size % HUGE == 0 && size % LINE == 0 && base + size + HUGE <= WORD
      ensures Valid() && used == 0 && live == []
      ensures this.size == size && this.base == base && this.useHuge == useHuge && this.sysPage == sysPage
    {
      this.size, this.base, this.useHuge, this.sysPage := size, base, useHuge, sysPage;
      used := 0;
      live := [];
    }

    /** `nkit_arena_create`, given what the two `mmap` attempts came to.  No mapping has length 0,
        so a size whose rounding wraps to 0 yields no arena. */
    static method Create(bytes: nat, mapping: Mapping, sysPage: nat) returns (arena: Arena?)
      requires bytes < WORD && MappingOk(mapping, bytes, sysPage)
      ensures arena == null <==> bytes == 0 || mapping.Failed?
      ensures arena != null ==>
                && fresh(arena) && arena.Valid() && arena.used == 0 && arena.live == []
                && arena.base == mapping.base && arena.size == AlignUp(bytes, HUGE) && bytes <= arena.size
                && arena.useHuge == mapping.huge && arena.sysPage == sysPage
    {
      if bytes == 0 { return null; }
      var aligned := HugeUp(bytes);
      match mapping
      case Failed => return null;
      case Mapped(base, huge) => arena := new Arena(aligned, base, huge, sysPage);
    }

    /** `nkit_arena_alloc`.  Below the bound every answer is right: null exactly when the rest is too
        small, else a fresh block behind the live ones.  Above it the sums wrap and the block handed
        out does not fit. */
    method Alloc(n: nat) returns (p: nat)
      requires Valid() && n < WORD
      modifies this`used, this`live
      ensures n <= WORD - LINE - old(used) ==>
                && Valid()
                && (p == NULL <==> n > size - old(used))
                && (p != NULL ==> p == base + old(used) && live == old(live) + [Block(p, n)]
                                  && old(used) + n <= used < old(used) + n + LINE)
                && (p == NULL ==> used == old(used) && live == old(live))
      ensures n > WORD - LINE - old(used) ==> p == base + old(used) && p + n > base + size
    {
      var aligned := LineUp(n);
      Bumped(used, size, n, aligned);
      if Add(used, aligned) > size {
        return NULL;
      }
      p := base + used;
      if n <= WORD - LINE - used {
        MultipleSum(base, used, LINE);
        LaidBehind(live, base, base + used, n, base + used + aligned);
      }
      live := live + [Block(p, n)];
      used := Add(used, aligned);
    }

    /** Live blocks start on 64-byte lines, lie in the arena and do not overlap. */
    lemma LiveApart(i: nat, j: nat)
      requires Valid() && i < j < |live|
      ensures live[i].start % 64 == 0 && live[j].start % 64 == 0
      ensures base <= live[i].start && live[j].start + live[j].bytes <= base + size
      ensures live[i].start + live[i].bytes <= live[j].start
    {}

    /** `nkit_arena_reset`. */
    method Reset()
      requires Valid()
      modifies this`used, this`live
      ensures Valid() && used == 0 && live == []
    {
      used := 0;
      live := [];
    }

    /** `nkit_arena_coalesce`, when `madvise` answers `advised`: the whole pages above the watermark,
        up to the end of the arena, are released, and no live byte is among them. */
    method Coalesce(advised: bool) returns (pages: nat, ghost from: nat)
      requires Valid()
      ensures pages > 0 ==>
                && from % PageSize() == 0 && base + used <= from < base + used + PageSize()
                && from + pages * PageSize() == base + size
                && (forall i :: 0 <= i < |live| ==> live[i].start + live[i].bytes <= from)
      ensures pages > 0 <==> advised && used + PageSize() <= size
    {
      var page := PageSize();
      HugeIsPower();
      var first := PageUp(base + used, page);
      var end := base + size;
      from := first;
      PagesLeft(first);
      if first >= end { return 0, first; }
      pages := (end - first) / page;
      if pages == 0 { return; }
      if !advised { return 0, first; }
    }

    /** From the first page boundary at or above the watermark to the end, it is whole pages. */
    lemma PagesLeft(first: nat)
      requires Valid() && first % PageSize() == 0 && base + used <= first < base + used + PageSize()
      ensures var page, end := PageSize(), base + size;
        && first <= end && (end - first) / page * page == end - first
        && (first < end <==> used + page <= size) && (first < end ==> first + page <= end)
    {
      HugeIsPower();
      var page, end := PageSize(), base + size;
      PowersDivide(page, HUGE);
      MultipleOfMultiple(size, HUGE, page);
      MultipleSum(base, size, page);
      LeastMultiple(base + used, first, end, page);
      MultipleDifference(end, first, page);
    }
  }
}
