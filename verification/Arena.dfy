/**
 The bump-pointer arena. Addresses are numbers; what `mmap` would return is a parameter, constrained as the
 system call promises: page aligned and apart from every mapping the arena owns.
 */
module Arena {
  import opened Common

  const PAGE := 4096
  const LARGE := 32768

  datatype Region = Region(start: nat, size: nat)

  predicate Apart(a: Region, b: Region) { a.start + a.size <= b.start || b.start + b.size <= a.start }

  predicate Within(a: Region, b: Region) { b.start <= a.start && a.start + a.size <= b.start + b.size }

  function AlignUp(p: nat, a: nat): nat
    requires a > 0
  {
    (p + a - 1) / a * a
  }

  function RoundToPage(n: nat): nat { AlignUp(n, PAGE) }

  lemma AlignUpBounds(p: nat, a: nat)
    requires a > 0
    ensures p <= AlignUp(p, a) < p + a && AlignUp(p, a) % a == 0
  {
    var q := (p + a - 1) / a;
    assert p + a - 1 == q * a + (p + a - 1) % a;
    MultipleMod(q, a);
  }

  lemma MultipleMod(q: nat, a: nat)
    requires a > 0
    ensures q * a % a == 0
  {
    DivUnique(q * a, a, q, 0);
  }

  /** A page boundary is a boundary for every alignment that divides a page. */
  lemma PageIsAligned(p: nat, a: nat)
    requires a > 0 && PAGE % a == 0 && p % PAGE == 0
    ensures p % a == 0 && AlignUp(p, a) == p
  {
    var m, k := PAGE / a, p / PAGE;
    assert m * a == PAGE && k * PAGE == p;
    assert k * m * a == k * (m * a);
    MultipleMod(k * m, a);
    AlignUpBounds(p, a);
    ModApart(p, AlignUp(p, a), a);
  }

  lemma ModApart(x: nat, y: nat, a: nat)
    requires a > 0 && x % a == 0 && y % a == 0 && x <= y < x + a
    ensures x == y
  {
    var i, j := x / a, y / a;
    assert x == i * a && y == j * a;
    assert (j - i) * a == y - x;
    MulApart(j - i, a);
  }

  /** A live allocation: where it is, how it was aligned, and the mapping that holds it. */
  datatype Allocation = Allocation(at: Region, alignment: nat, home: Region)

  function SumSizes(regions: seq<Region>): nat {
    if regions == [] then 0 else SumSizes(regions[..|regions| - 1]) + regions[|regions| - 1].size
  }

  function SumLive(live: seq<Allocation>): nat {
    if live == [] then 0 else SumLive(live[..|live| - 1]) + live[|live| - 1].at.size
  }

  ghost predicate PairwiseApart(regions: seq<Region>) {
    forall i, j :: 0 <= i < j < |regions| ==> Apart(regions[i], regions[j])
  }

  /** Allocations are aligned, inside their mapping, and apart from each other. */
  ghost predicate Sound(live: seq<Allocation>) {
    && (forall i :: 0 <= i < |live| ==>
          live[i].alignment > 0 && live[i].at.start % live[i].alignment == 0 && Within(live[i].at, live[i].home))
    && (forall i, j :: 0 <= i < j < |live| ==> Apart(live[i].at, live[j].at))
  }

  lemma SumSizesSnoc(regions: seq<Region>, r: Region)
    ensures SumSizes(regions + [r]) == SumSizes(regions) + r.size
  {
    assert (regions + [r])[..|regions|] == regions;
  }

  lemma SumLiveSnoc(live: seq<Allocation>, a: Allocation)
    ensures SumLive(live + [a]) == SumLive(live) + a.at.size
  {
    assert (live + [a])[..|live|] == live;
  }

  lemma PairwiseSnoc(regions: seq<Region>, r: Region)
    requires PairwiseApart(regions) && forall i :: 0 <= i < |regions| ==> Apart(regions[i], r)
    ensures PairwiseApart(regions + [r])
  {
  }

  lemma SoundSnoc(live: seq<Allocation>, a: Allocation)
    requires Sound(live) && a.alignment > 0 && a.at.start % a.alignment == 0 && Within(a.at, a.home)
    requires forall i :: 0 <= i < |live| ==> Apart(live[i].at, a.at)
    ensures Sound(live + [a])
  {
  }

  /** An address behind every region. */
  function Behind(regions: seq<Region>): nat {
    if regions == [] then 0
    else Max(Behind(regions[..|regions| - 1]), regions[|regions| - 1].start + regions[|regions| - 1].size)
  }

  lemma {:induction false} BehindAll(regions: seq<Region>, i: nat)
    requires i < |regions|
    ensures regions[i].start + regions[i].size <= Behind(regions)
  {
    if i < |regions| - 1 { BehindAll(regions[..|regions| - 1], i); }
  }

  /** Of two neighbouring pages at least one misses an alignment that does not divide a page. */
  lemma NeighbourMisses(page: nat, a: nat)
    requires a > 0 && PAGE % a != 0
    ensures page % a != 0 || (page + PAGE) % a != 0
  {
    if page % a == 0 && (page + PAGE) % a == 0 {
      var q, r := page / a, (page + PAGE) / a;
      assert page == q * a && page + PAGE == r * a;
      assert PAGE == (r - q) * a;
      DivUnique(PAGE, a, r - q, 0);
    }
  }

  class ArenaAllocator {
    const blockSize: nat
    var current: nat
    var end: nat
    var blocks: seq<Region>
    var large: seq<Region>
    /** What has been handed out since the last reset. */
    ghost var live: seq<Allocation>

    ghost predicate Mapped()
      reads this
    {
      && blockSize >= PAGE && blocks != []
      && (forall i :: 0 <= i < |blocks| ==> blocks[i].size == blockSize)
      && PairwiseApart(blocks + large)
      && Last().start <= current <= end == Last().start + blockSize
    }

    ghost function Last(): Region
      reads this
      requires blocks != []
    {
      blocks[|blocks| - 1]
    }

    ghost predicate Valid()
      reads this
    {
      && Mapped() && Sound(live)
      && (forall i :: 0 <= i < |live| ==> live[i].home in blocks || live[i].home in large)
      && (forall i :: 0 <= i < |live| && live[i].home == Last() ==> live[i].at.start + live[i].at.size <= current)
      && SumLive(live) <= Used()
    }

    ghost function Used(): nat
      reads this
      requires Mapped()
    {
      SumSizes(blocks[..|blocks| - 1]) + (current - Last().start) + SumSizes(large)
    }

    ghost function Total(): nat
      reads this
    {
      SumSizes(blocks) + SumSizes(large)
    }

    /** `page` is where the system would map, when it does. */
    ghost predicate Fresh(page: nat, size: nat)
      reads this
    {
      page % PAGE == 0 && forall i :: 0 <= i < |blocks + large| ==> Apart((blocks + large)[i], Region(page, size))
    }

    constructor (blockSize: nat, page: nat)
      requires page % PAGE == 0
      ensures Valid() && live == [] && this.blockSize == Max(blockSize, PAGE)
      ensures blocks == [Region(page, Max(blockSize, PAGE))] && large == [] && current == page
    {
      this.blockSize := Max(blockSize, PAGE);
      blocks := [Region(page, Max(blockSize, PAGE))];
      current, end := page, page + Max(blockSize, PAGE);
      large, live := [], [];
    }

    /** The number of bytes a request asks the system for, and zero when the current block serves it. */
    ghost function MapSize(bytes: nat, alignment: nat): nat
      reads this
      requires alignment > 0
    {
      var n := Max(bytes, 1);
      if n >= LARGE then RoundToPage(n)
      else if AlignUp(current, alignment) + n <= end then 0
      else if n + alignment > blockSize then RoundToPage(n + alignment)
      else blockSize
    }

    /** The request gets a mapping of its own, which is aligned to a page and to nothing more. */
    ghost predicate OwnMapping(bytes: nat, alignment: nat)
      reads this
      requires alignment > 0
    {
      var n := Max(bytes, 1);
      n >= LARGE || (AlignUp(current, alignment) + n > end && n + alignment > blockSize)
    }

    /** The alignment a caller can count on. */
    ghost function Granted(bytes: nat, alignment: nat): nat
      reads this
      requires alignment > 0
    {
      if OwnMapping(bytes, alignment) && PAGE % alignment != 0 then PAGE else alignment
    }

    /**
     The current block serves a request exactly when it is below the threshold for large ones and some aligned place in
     the rest of the block holds it; otherwise whole pages are asked for, or a block.
     */
    lemma ServedInPlace(bytes: nat, alignment: nat)
      requires Valid() && alignment > 0
      ensures MapSize(bytes, alignment) == 0 <==>
              bytes < 32768 && exists m: nat :: Suits(m, bytes, alignment)
      ensures MapSize(bytes, alignment) > 0 ==>
                MapSize(bytes, alignment) == blockSize ||
                (MapSize(bytes, alignment) % 4096 == 0 && bytes <= MapSize(bytes, alignment))
    {
      hide AlignUp, PairwiseApart, Sound, SumSizes, SumLive;
      var n := Max(bytes, 1);
      AlignUpBounds(current, alignment);
      AlignUpBounds(n, PAGE);
      AlignUpBounds(n + alignment, PAGE);
      assert AlignUp(current, alignment) + n <= end ==> Suits(AlignUp(current, alignment), bytes, alignment);
      if m: nat :| Suits(m, bytes, alignment) {
        if m < AlignUp(current, alignment) { ModApart(m, AlignUp(current, alignment), alignment); }
      }
    }

    ghost predicate Suits(m: nat, bytes: nat, alignment: nat)
      reads this
      requires alignment > 0
    {
      current <= m && m % alignment == 0 && m + Max(bytes, 1) <= end
    }

    /**
     Whatever page the system returns, a request with a mapping of its own is aligned as asked if and only if the
     alignment divides a page. (Any other request is.)
     */
    lemma OwnMappingAligned(bytes: nat, alignment: nat)
      requires Valid() && alignment > 0 && OwnMapping(bytes, alignment)
      ensures (forall page: nat :: Fresh(page, MapSize(bytes, alignment)) ==> page % alignment == 0)
              <==> PAGE % alignment == 0
    {
      hide AlignUp;
      var size, all := MapSize(bytes, alignment), blocks + large;
      if PAGE % alignment == 0 {
        forall page: nat | Fresh(page, size) ensures page % alignment == 0 { PageIsAligned(page, alignment); }
      } else {
        var page := RoundToPage(Behind(all));
        AlignUpBounds(Behind(all), PAGE);
        forall i | 0 <= i < |all|
          ensures Apart(all[i], Region(page, size)) && Apart(all[i], Region(page + PAGE, size))
        {
          BehindAll(all, i);
        }
        assert (page + PAGE) % PAGE == 0;
        assert Fresh(page, size) && Fresh(page + PAGE, size);
        NeighbourMisses(page, alignment);
      }
    }

    /** `None` is `std::bad_alloc`: the mapping failed and nothing has changed. */
    method Allocate(bytes: nat, alignment: nat, page: Option<nat>) returns (address: Option<nat>)
      requires Valid() && alignment > 0
      requires page.Some? && MapSize(bytes, alignment) > 0 ==> Fresh(page.value, MapSize(bytes, alignment))
      modifies this
      ensures Valid()
      ensures address.None? <==> page.None? && old(MapSize(bytes, alignment)) > 0
      ensures address.None? ==>
                && live == old(live) && blocks == old(blocks) && large == old(large)
                && current == old(current) && end == old(end)
      ensures address.Some? ==>
                && |live| == |old(live)| + 1 && live[..|old(live)|] == old(live)
                && live[|old(live)|].at == Region(address.value, Max(bytes, 1))
                && live[|old(live)|].alignment == old(Granted(bytes, alignment))
                && Total() == old(Total()) + old(MapSize(bytes, alignment))
      ensures address.Some? && old(OwnMapping(bytes, alignment)) ==> address == page
      ensures address.Some? && !old(OwnMapping(bytes, alignment)) ==> address.value % alignment == 0
      ensures old(MapSize(bytes, alignment)) == 0 ==>
                && address.Some? && old(current) <= address.value < old(current) + alignment
                && current == address.value + Max(bytes, 1) && blocks == old(blocks) && large == old(large)
    {
      hide AlignUp, PairwiseApart, Sound, SumSizes, SumLive;
      var n := if bytes == 0 then 1 else bytes;
      AlignUpBounds(n, PAGE);
      AlignUpBounds(n + alignment, PAGE);
      AlignUpBounds(current, alignment);
      ghost var granted := if PAGE % alignment == 0 then alignment else PAGE;
      if n >= LARGE {
        if page.None? { return None; }
        MapLarge(page.value, RoundToPage(n), n, granted);
        return page;
      }
      var aligned := AlignUp(current, alignment);
      if aligned + n > end {
        if page.None? { return None; }
        if n + alignment > blockSize {
          MapLarge(page.value, RoundToPage(n + alignment), n, granted);
          return page;
        }
        MapBlock(page.value);
        AlignUpBounds(page.value, alignment);
        aligned := AlignUp(current, alignment);
      }
      Bump(aligned, n, alignment);
      return Some(aligned);
    }

    /** A request of its own mapping. */
    method MapLarge(page: nat, size: nat, n: nat, ghost alignment: nat)
      requires Valid() && Fresh(page, size) && 0 < n <= size && alignment > 0 && PAGE % alignment == 0
      modifies this`large, this`live
      ensures Valid() && live == old(live) + [Allocation(Region(page, n), alignment, Region(page, size))]
      ensures Total() == old(Total()) + size
    {
      hide SumSizes, SumLive;
      var r := Region(page, size);
      var a := Allocation(Region(page, n), alignment, r);
      PageIsAligned(page, alignment);
      PairwiseSnoc(blocks + large, r);
      assert blocks + (large + [r]) == blocks + large + [r];
      SumSizesSnoc(large, r);
      SumLiveSnoc(live, a);
      assert Apart(Last(), r) by { assert (blocks + large)[|blocks| - 1] == Last(); }
      HomesApart(r);
      SoundSnoc(live, a);
      large := large + [r];
      live := live + [a];
    }

    lemma HomesApart(r: Region)
      requires Valid() && forall i :: 0 <= i < |blocks + large| ==> Apart((blocks + large)[i], r)
      ensures forall i, n :: 0 <= i < |live| && 0 <= n <= r.size ==> Apart(live[i].at, Region(r.start, n))
    {
      forall i, n | 0 <= i < |live| && 0 <= n <= r.size ensures Apart(live[i].at, Region(r.start, n)) {
        assert live[i].home in blocks + large;
        var k :| 0 <= k < |blocks + large| && (blocks + large)[k] == live[i].home;
      }
    }

    /** A new current block; what was left of the old one is given up. */
    method MapBlock(page: nat)
      requires Valid() && Fresh(page, blockSize)
      modifies this`blocks, this`current, this`end
      ensures Valid() && live == old(live) && current == page && end == page + blockSize
              && Last() == Region(page, blockSize)
      ensures Total() == old(Total()) + blockSize
    {
      hide SumSizes, SumLive, Sound;
      var r := Region(page, blockSize);
      SumSizesSnoc(blocks, r);
      assert (blocks + [r])[..|blocks|] == blocks;
      assert blocks == blocks[..|blocks| - 1] + [Last()];
      SumSizesSnoc(blocks[..|blocks| - 1], Last());
      InsertApart(blocks, large, r);
      assert r !in blocks + large by { NotItself(r); }
      forall i | 0 <= i < |live| ensures live[i].home != r { assert live[i].home in blocks + large; }
      blocks := blocks + [r];
      current, end := page, page + blockSize;
    }

    lemma NotItself(r: Region)
      requires r.size > 0 && forall i :: 0 <= i < |blocks + large| ==> Apart((blocks + large)[i], r)
      ensures r !in blocks + large
    {
    }

    /** The pointer moves past the allocation. */
    method Bump(aligned: nat, n: nat, ghost alignment: nat)
      requires Valid() && n > 0 && alignment > 0 && aligned % alignment == 0 && current <= aligned && aligned + n <= end
      modifies this`current, this`live
      ensures Valid() && live == old(live) + [Allocation(Region(aligned, n), alignment, Last())]
      ensures current == aligned + n
      ensures Total() == old(Total())
    {
      hide SumSizes, SumLive;
      var a := Allocation(Region(aligned, n), alignment, Last());
      SumLiveSnoc(live, a);
      forall i | 0 <= i < |live| ensures Apart(live[i].at, a.at) {
        if live[i].home != Last() { OtherHome(live[i].home); }
      }
      SoundSnoc(live, a);
      current := aligned + n;
      live := live + [a];
    }

    lemma OtherHome(home: Region)
      requires Mapped() && (home in blocks || home in large) && home != Last()
      ensures Apart(home, Last())
    {
      var all := blocks + large;
      assert home in all && all[|blocks| - 1] == Last();
      var k :| 0 <= k < |all| && all[k] == home;
    }

    method Reset()
      requires Valid()
      modifies this
      ensures Valid() && live == [] && blocks == old(blocks[..1]) && large == [] && current == blocks[0].start
      ensures Used() == 0
    {
      hide Sound;
      SlicedApart(blocks, large);
      blocks := blocks[..1];
      large, live := [], [];
      current, end := blocks[0].start, blocks[0].start + blocks[0].size;
      assert blocks + large == blocks;
      assert blocks[..0] == [];
      assert Sound(live) by { NothingIsSound(); }
    }

    /** Between what is live and what is mapped. */
    method BytesUsed() returns (used: nat)
      requires Valid()
      ensures used == Used() && SumLive(live) <= used <= Total()
    {
      used := 0;
      for i := 0 to |blocks| - 1
        invariant used == SumSizes(blocks[..i])
      {
        assert blocks[..i + 1][..i] == blocks[..i];
        used := used + blocks[i].size;
      }
      used := used + (current - blocks[|blocks| - 1].start);
      ghost var inBlocks := used;
      for i := 0 to |large|
        invariant used == inBlocks + SumSizes(large[..i])
      {
        assert large[..i + 1][..i] == large[..i];
        used := used + large[i].size;
      }
      assert large[..|large|] == large;
      assert blocks == blocks[..|blocks| - 1] + [Last()];
    }

    method TotalAllocated() returns (total: nat)
      ensures total == Total()
    {
      total := 0;
      for i := 0 to |blocks|
        invariant total == SumSizes(blocks[..i])
      {
        assert blocks[..i + 1][..i] == blocks[..i];
        total := total + blocks[i].size;
      }
      assert blocks[..|blocks|] == blocks;
      for i := 0 to |large|
        invariant total == SumSizes(blocks) + SumSizes(large[..i])
      {
        assert large[..i + 1][..i] == large[..i];
        total := total + large[i].size;
      }
      assert large[..|large|] == large;
    }
  }

  /** A large request aligned to 8192, mapped at page 4096, is not aligned. */
  method MisalignedLarge() returns (address: nat)
    ensures address % 8192 != 0
  {
    var arena := new ArenaAllocator(PAGE, 0);
    assert RoundToPage(LARGE) == LARGE;
    var where := arena.Allocate(LARGE, 8192, Some(PAGE));
    address := where.value;
  }

  lemma NothingIsSound()
    ensures Sound([])
  {
  }

  lemma InsertApart(a: seq<Region>, b: seq<Region>, r: Region)
    requires PairwiseApart(a + b) && forall i :: 0 <= i < |a + b| ==> Apart((a + b)[i], r)
    ensures PairwiseApart(a + [r] + b)
  {
    var whole, more := a + b, a + [r] + b;
    forall i, j | 0 <= i < j < |more| ensures Apart(more[i], more[j]) {
      var x, y := if i <= |a| then i else i - 1, if j <= |a| then j else j - 1;
      assert i < |a| ==> more[i] == whole[i];
      assert i > |a| ==> more[i] == whole[i - 1];
      assert j < |a| ==> more[j] == whole[j];
      assert j > |a| ==> more[j] == whole[j - 1];
    }
  }

  lemma SlicedApart(a: seq<Region>, b: seq<Region>)
    requires PairwiseApart(a + b) && a != []
    ensures PairwiseApart(a[..1])
  {
  }
}
