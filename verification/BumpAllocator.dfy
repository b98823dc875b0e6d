/** The page-list bump allocator of the Luau parser. Addresses and sizes are 64 bits wide and
    sums wrap around as they do in the source. */
module BumpAllocator {

  const PAGE_DATA: nat := 8192

  type U64 = x: nat | x < 0x1_0000_0000_0000_0000

  function Wrap(x: nat): U64 {
    x % 0x1_0000_0000_0000_0000
  }

  /** A stretch of memory. */
  datatype Region = Region(addr: nat, size: nat) {
    function End(): nat {
      addr + size
    }
  }

  predicate Disjoint(a: Region, b: Region) {
    a.End() <= b.addr || b.End() <= a.addr
  }

  ghost predicate PairwiseDisjoint(s: seq<Region>) {
    forall i, j | 0 <= i < j < |s| :: Disjoint(s[i], s[j])
  }

  /** operator new and operator delete: live regions are disjoint, and none reaches the last 64 KiB
      of the address space. */
  class Heap {
    const top: nat   // the end of the address space that operator new serves from
    var live: seq<Region>
    ghost var freed: seq<Region>   // everything deleted, in order
    ghost var refusals: nat        // how often bad_alloc was the answer

    ghost predicate Valid()
      reads this`live
    {
      && PairwiseDisjoint(live) && top <= 0xFFFF_FFFF_FFFF_0000
      && forall r | r in live :: r.addr > 0 && r.addr % 16 == 0 && r.End() <= top
    }

    constructor (end: nat)
      requires end <= 0xFFFF_FFFF_FFFF_0000
      ensures Valid() && live == [] && top == end
    {
      live, top, freed, refusals := [], end, [], 0;
    }

    /** Any free place, or bad_alloc. */
    method New(size: U64) returns (ok: bool, addr: nat)
      requires Valid()
      modifies this`live, this`refusals
      ensures Valid()
      ensures ok ==> live == old(live) + [Region(addr, size)] && refusals == old(refusals)
      ensures !ok ==> live == old(live) && refusals == old(refusals) + 1
    {
      var next := 16;
      for i := 0 to |live|
        invariant next > 0 && forall j | 0 <= j < i :: live[j].End() <= next
      {
        if live[i].End() > next {
          next := live[i].End();
        }
      }
      addr := (next + 15) / 16 * 16;
      ok := addr + size <= top;
      if ok {
        live := live + [Region(addr, size)];
      } else {
        refusals := refusals + 1;
      }
    }

    /** delete of a region that is live. */
    method Delete(r: Region)
      requires Valid() && r in live
      modifies this`live, this`freed
      ensures Valid() && multiset(live) == multiset(old(live)) - multiset{r}
      ensures freed == old(freed) + [r]
    {
      var i := 0;
      while live[i] != r
        invariant 0 <= i < |live| && r in live[i..]
        decreases |live| - i
      {
        i := i + 1;
      }
      RemoveAt(live, i);
      live, freed := live[..i] + live[i + 1..], freed + [r];
    }
  }

  lemma RemoveAt(s: seq<Region>, i: nat)
    requires i < |s| && PairwiseDisjoint(s)
    ensures PairwiseDisjoint(s[..i] + s[i + 1..])
    ensures multiset(s[..i] + s[i + 1..]) == multiset(s) - multiset{s[i]}
    ensures forall r | r in s[..i] + s[i + 1..] :: r in s
  {
    var t := s[..i] + s[i + 1..];
    assert forall j | 0 <= j < |t| :: t[j] == s[if j < i then j else j + 1];
    assert s == s[..i] + [s[i]] + s[i + 1..];
  }

  /** The part of a page that blocks come from. */
  function Data(page: Region): Region {
    Region(page.addr + 8, if page.size >= 8 then page.size - 8 else 0)
  }

  predicate Inside(block: Region, page: Region) {
    Data(page).addr <= block.addr && block.End() <= Data(page).End()
  }

  /** (x + 7) & ~7. */
  function AlignUp(x: nat): (r: nat)
    ensures r % 8 == 0 && x <= r < x + 8
  {
    (x + 7) / 8 * 8
  }

  /** The block lies inside one of the pages. */
  ghost predicate Lies(block: Region, pages: seq<Region>) {
    exists p :: p in pages && Inside(block, p)
  }

  /** The pages, what was allocated from them, and how much of the first page is used. */
  ghost predicate Sound(pages: seq<Region>, blocks: seq<Region>, offset: nat) {
    && PairwiseDisjoint(pages)
    && (forall p | p in pages :: p.size >= 8 + PAGE_DATA && p.addr % 8 == 0 && p.End() <= 0xFFFF_FFFF_FFFF_0000)
    && PairwiseDisjoint(blocks)
    && (forall b | b in blocks :: b.addr % 8 == 0 && Lies(b, pages))
    && (pages != [] ==> offset <= Data(pages[0]).size)
    && (pages != [] ==> forall b | b in blocks && Inside(b, pages[0]) :: b.End() <= pages[0].addr + 8 + offset)
  }

  lemma TooLong(block: Region, pages: seq<Region>)
    requires forall p | p in pages :: p.size >= 8 && p.End() <= 0xFFFF_FFFF_FFFF_0000
    requires block.End() >= 0x1_0000_0000_0000_0000
    ensures !Lies(block, pages)
  {
  }

  lemma Snoc(s: seq<Region>, r: Region)
    requires PairwiseDisjoint(s) && forall b | b in s :: Disjoint(b, r)
    ensures PairwiseDisjoint(s + [r])
  {
  }

  /** Blocks of different pages are apart. */
  lemma ApartByPage(b: Region, p: Region, c: Region, q: Region)
    requires Inside(b, p) && Inside(c, q) && Disjoint(p, q) && p.size >= 8 && q.size >= 8
    ensures Disjoint(b, c)
  {
  }

  lemma InOrder(pages: seq<Region>, p: Region)
    requires PairwiseDisjoint(pages) && p in pages && p != pages[0]
    ensures Disjoint(pages[0], p)
  {
    var i :| 0 <= i < |pages| && pages[i] == p;
    assert Disjoint(pages[0], pages[i]);
  }

  /** A block taken behind the used part of the first page. */
  lemma InPageSound(pages: seq<Region>, blocks: seq<Region>, offset: nat, block: Region)
    requires Sound(pages, blocks, offset) && pages != []
    requires block.addr == AlignUp(pages[0].addr + 8 + offset) && block.End() <= pages[0].addr + 8 + PAGE_DATA
    ensures Inside(block, pages[0])
    ensures Sound(pages, blocks + [block], block.End() - pages[0].addr - 8)
  {
    forall b | b in blocks ensures Disjoint(b, block) {
      if !Inside(b, pages[0]) {
        var p :| p in pages && Inside(b, p);
        InOrder(pages, p);
        ApartByPage(b, p, block, pages[0]);
      }
    }
    Snoc(blocks, block);
    LiesInFirst(block, pages);
  }

  /** A block at the start of a new page. */
  lemma NewPageSound(pages: seq<Region>, blocks: seq<Region>, offset: nat, page: Region, size: nat)
    requires Sound(pages, blocks, offset) && forall p | p in pages :: Disjoint(p, page)
    requires page.size >= 8 + PAGE_DATA && page.size >= 8 + size
    requires page.addr % 8 == 0 && page.End() <= 0xFFFF_FFFF_FFFF_0000
    ensures Inside(Region(page.addr + 8, size), page)
    ensures Sound([page] + pages, blocks + [Region(page.addr + 8, size)], size)
  {
    var block, all := Region(page.addr + 8, size), [page] + pages;
    forall b | b in blocks ensures Disjoint(b, block) && Lies(b, all) && !(Inside(b, page) && b.End() > block.addr) {
      var p :| p in pages && Inside(b, p);
      ApartByPage(b, p, block, page);
      assert p in all;
    }
    Snoc(blocks, block);
    assert page in all;
    forall i, j | 0 <= i < j < |all| ensures Disjoint(all[i], all[j]) {
      assert all[j] == pages[j - 1] && pages[j - 1] in pages;
    }
  }

  /** A sum of the next allocation does not fit 64 bits where the source relies on it. */
  predicate Wraps(pages: seq<Region>, offset: nat, size: nat) {
    if pages != [] && Wrap(AlignUp(pages[0].addr + 8 + offset) + size) <= pages[0].addr + 8 + PAGE_DATA
    then AlignUp(pages[0].addr + 8 + offset) + size >= 0x1_0000_0000_0000_0000
    else size + 8 >= 0x1_0000_0000_0000_0000
  }

  lemma NothingSound()
    ensures Sound([], [], 0)
  {
  }

  lemma OnePageSound(page: Region)
    requires page.size == 8 + PAGE_DATA && page.addr % 8 == 0 && page.End() <= 0xFFFF_FFFF_FFFF_0000
    ensures Sound([page], [], 0)
  {
  }

  lemma Aligned16(addr: nat)
    requires addr % 16 == 0
    ensures addr % 8 == 0
  {
    assert addr == 16 * (addr / 16);
  }

  /** The sums of the first half of allocate. */
  lemma RootSums(pages: seq<Region>, blocks: seq<Region>, offset: nat, size: U64, result: nat)
    requires Sound(pages, blocks, offset) && pages != []
    requires result == Wrap(pages[0].addr + 8 + offset + 7) / 8 * 8
    ensures var data := pages[0].addr + 8;
            && result == AlignUp(data + offset) && data <= result && result % 8 == 0
            && Wrap(data + PAGE_DATA) == data + PAGE_DATA
            && (result + size < 0x1_0000_0000_0000_0000 ==>
                  Wrap(result + size) == result + size && Wrap(result - data + size) == result - data + size)
  {
    assert pages[0] in pages;
    assert pages[0].addr + 8 + offset <= pages[0].End();
  }

  lemma LiesInFirst(block: Region, pages: seq<Region>)
    requires pages != [] && Inside(block, pages[0])
    ensures Lies(block, pages)
  {
    assert pages[0] in pages;
  }

  lemma SoundEnds(pages: seq<Region>, blocks: seq<Region>, offset: nat)
    requires Sound(pages, blocks, offset)
    ensures forall p | p in pages :: p.size >= 8 && p.End() <= 0xFFFF_FFFF_FFFF_0000
    ensures PairwiseDisjoint(pages) && PairwiseDisjoint(blocks)
    ensures forall b | b in blocks :: b.addr % 8 == 0 && Lies(b, pages)
  {
  }

  /** A region that operator new has just returned is apart from those that were live. */
  lemma FreshRegion(live: seq<Region>, page: Region, pages: seq<Region>)
    requires PairwiseDisjoint(live + [page]) && forall p | p in pages :: p in live
    ensures forall p | p in pages :: Disjoint(p, page)
  {
    forall p | p in pages ensures Disjoint(p, page) {
      var i :| 0 <= i < |live| && live[i] == p;
      assert (live + [page])[i] == p && (live + [page])[|live|] == page;
    }
  }

  /** No sum wraps for a size that leaves room above the highest page. */
  lemma NeverWraps(pages: seq<Region>, blocks: seq<Region>, offset: nat, size: nat, top: nat)
    requires Sound(pages, blocks, offset) && forall p | p in pages :: p.End() <= top
    requires top + size + 8 < 0x1_0000_0000_0000_0000
    ensures !Wraps(pages, offset, size)
  {
    if pages != [] {
      assert pages[0] in pages;
      assert pages[0].addr + 8 + offset <= pages[0].End();
    }
  }

  /** A size of 2 to the power 64 minus 8 passes the test of a fresh page, and the block does not fit it. */
  lemma HugeSizeWraps(addr: nat)
    requires addr % 16 == 0 && addr + 8 + PAGE_DATA <= 0xFFFF_FFFF_FFFF_0000
    ensures var pages := [Region(addr, 8 + PAGE_DATA)];
            && Sound(pages, [], 0) && Wraps(pages, 0, 0xFFFF_FFFF_FFFF_FFF8)
            && Wrap(AlignUp(addr + 8) + 0xFFFF_FFFF_FFFF_FFF8) <= addr + 8 + PAGE_DATA
            && !Lies(Region(AlignUp(addr + 8), 0xFFFF_FFFF_FFFF_FFF8), pages)
  {
    hide AlignUp, Wrap, Sound;
    Aligned16(addr);
    AlignedAlready(addr + 8);
    WrapsOnce(addr + 8);
    OnePageSound(Region(addr, 8 + PAGE_DATA));
  }

  lemma AlignedAlready(x: nat)
    requires x % 8 == 0
    ensures AlignUp(x) == x
  {
  }

  lemma WrapsOnce(x: nat)
    requires 8 <= x < 0x1_0000_0000_0000_0000
    ensures Wrap(x + 0xFFFF_FFFF_FFFF_FFF8) == x - 8
  {
  }

  class Allocator {
    var pages: seq<Region>          // the list, root first; a page is its header of 8 bytes and its data
    var offset: U64
    ghost var blocks: seq<Region>   // everything allocated

    ghost predicate Valid(heap: Heap)
      reads this, heap`live
    {
      heap.Valid() && (forall p | p in pages :: p in heap.live) && Sound(pages, blocks, offset)
    }

    /** Allocator(): one page, and none if bad_alloc was the answer. */
    constructor (heap: Heap)
      requires heap.Valid()
      modifies heap`live, heap`refusals
      ensures Valid(heap) && blocks == [] && offset == 0
      ensures heap.live == old(heap.live) + pages
      ensures |pages| <= 1 && heap.refusals == old(heap.refusals) + 1 - |pages|
    {
      hide Sound, PairwiseDisjoint;
      pages, offset, blocks := [], 0, [];
      new;
      NothingSound();
      var ok, addr := heap.New(8 + PAGE_DATA);
      if ok {
        pages := [Region(addr, 8 + PAGE_DATA)];
        assert pages[0] in heap.live;
        Aligned16(addr);
        OnePageSound(pages[0]);
      }
    }

    /** Allocator(Allocator&&): the source is left without pages. */
    constructor Move(rhs: Allocator, ghost heap: Heap)
      requires rhs.Valid(heap)
      modifies rhs
      ensures Valid(heap) && pages == old(rhs.pages) && blocks == old(rhs.blocks) && offset == old(rhs.offset)
      ensures rhs.Valid(heap) && rhs.pages == [] && rhs.offset == 0 && rhs.blocks == []
    {
      pages, offset, blocks := rhs.pages, rhs.offset, rhs.blocks;
      new;
      rhs.pages, rhs.offset, rhs.blocks := [], 0, [];
    }

    /** The first half of allocate: the block comes from the first page if it fits. */
    method FromRoot(ghost heap: Heap, size: U64) returns (ok: bool, result: nat)
      requires Valid(heap)
      modifies this`offset, this`blocks
      ensures ok <==>
                pages != [] && Wrap(AlignUp(pages[0].addr + 8 + old(offset)) + size) <= pages[0].addr + 8 + PAGE_DATA
      ensures !ok ==> offset == old(offset) && blocks == old(blocks)
      ensures ok ==> result % 8 == 0 && (Lies(Region(result, size), pages) <==> !Wraps(pages, old(offset), size))
      ensures ok && !Wraps(pages, old(offset), size) ==> Valid(heap) && blocks == old(blocks) + [Region(result, size)]
    {
      hide Sound, Wrap, AlignUp, Lies;
      ok, result := false, 0;
      if pages != [] {
        var data := pages[0].addr + 8;
        result := Wrap(data + offset + 7) / 8 * 8;
        RootSums(pages, blocks, offset, size, result);
        if Wrap(result + size) <= Wrap(data + PAGE_DATA) {
          ok := true;
          ghost var block := Region(result, size);
          if block.End() < 0x1_0000_0000_0000_0000 {
            InPageSound(pages, blocks, offset, block);
            LiesInFirst(block, pages);
          } else {
            SoundEnds(pages, blocks, offset);
            TooLong(block, pages);
          }
          offset := Wrap(result - data + size);
          blocks := blocks + [block];
        }
      }
    }

    /** The second half of allocate: a new page becomes the first. */
    method FromNewPage(heap: Heap, size: U64) returns (ok: bool, result: nat)
      requires Valid(heap)
      modifies this, heap`live, heap`refusals
      ensures ok ==> result % 8 == 0 && (Lies(Region(result, size), pages) <==> size + 8 < 0x1_0000_0000_0000_0000)
      ensures size + 8 < 0x1_0000_0000_0000_0000 || !ok ==> Valid(heap)
      ensures ok ==> pages != [] && pages[1..] == old(pages) && blocks == old(blocks) + [Region(result, size)]
      ensures ok ==> heap.live == old(heap.live) + [pages[0]] && heap.refusals == old(heap.refusals)
      ensures !ok ==> pages == old(pages) && blocks == old(blocks) && offset == old(offset)
                      && heap.live == old(heap.live) && heap.refusals == old(heap.refusals) + 1
    {
      hide Sound, Lies, Wrap, PairwiseDisjoint;
      result := 0;
      var pageSize := if size > PAGE_DATA then size else PAGE_DATA;
      var addr;
      ok, addr := heap.New(Wrap(8 + pageSize));
      if !ok {
        return;
      }
      var page := Region(addr, Wrap(8 + pageSize));
      result := addr + 8;
      ghost var was, block := pages, Region(result, size);
      assert page in heap.live;
      PageMade(old(heap.live), was, blocks, offset, page, size);
      pages := [page] + pages;
      offset := size;
      blocks := blocks + [block];
    }

    /** allocate. The block lies inside a page exactly when no sum wraps, and then it is aligned and
        apart from all earlier blocks. */
    method Allocate(heap: Heap, size: U64) returns (ok: bool, result: nat)
      requires Valid(heap)
      modifies this, heap`live, heap`refusals
      ensures ok ==> result % 8 == 0 && (Lies(Region(result, size), pages) <==> !Wraps(old(pages), old(offset), size))
      ensures !Wraps(old(pages), old(offset), size) ==> Valid(heap)
      ensures !Wraps(old(pages), old(offset), size) && ok ==> blocks == old(blocks) + [Region(result, size)]
      ensures !ok ==> blocks == old(blocks) && pages == old(pages) && offset == old(offset)
                      && heap.live == old(heap.live)
      ensures |pages| - |old(pages)| in {0, 1} && pages[|pages| - |old(pages)|..] == old(pages)
      ensures heap.live == old(heap.live) + pages[..|pages| - |old(pages)|]
      ensures heap.refusals == old(heap.refusals) + if ok then 0 else 1
    {
      hide Sound, Lies, Wrap, AlignUp, PairwiseDisjoint;
      ok, result := FromRoot(heap, size);
      if ok {
        assert pages[0..] == pages && pages[..0] == [];
        return;
      }
      ok, result := FromNewPage(heap, size);
      if !ok {
        assert pages[0..] == pages && pages[..0] == [];
      } else {
        assert |pages| - |old(pages)| == 1 && pages[..1] == [pages[0]];
      }
    }

    /** ~Allocator: every page is deleted once; deleting a region that is not live is not allowed. */
    method Destroy(heap: Heap)
      requires Valid(heap)
      modifies this, heap`live, heap`freed
      ensures heap.Valid() && pages == []
      ensures multiset(heap.live) == multiset(old(heap.live)) - multiset(old(pages))
      ensures heap.freed == old(heap.freed) + old(pages)
    {
      hide Sound, PairwiseDisjoint, Lies;
      SoundEnds(pages, blocks, offset);
      ghost var all, before := multiset(heap.live), heap.freed;
      var page := pages;
      ghost var gone: seq<Region> := [];
      while page != []
        invariant heap.Valid() && pages == old(pages) && gone + page == pages && PairwiseDisjoint(page)
        invariant forall p | p in page :: p in heap.live && p.size >= 8
        invariant multiset(heap.live) == all - multiset(gone)
        invariant heap.freed == before + gone
      {
        var next := page[1..];
        ghost var was := heap.live;
        heap.Delete(page[0]);
        PageGone(all, was, heap.live, gone, page);
        FreedSoFar(before, gone, [page[0]]);
        gone := gone + [page[0]];
        page := next;
      }
      assert gone == pages;
      pages := [];
    }
  }

  /** One round of the destructor. */
  lemma PageGone(all: multiset<Region>, was: seq<Region>, live: seq<Region>, gone: seq<Region>, page: seq<Region>)
    requires page != [] && PairwiseDisjoint(page) && forall p | p in page :: p in was && p.size >= 8
    requires multiset(was) == all - multiset(gone) && multiset(live) == multiset(was) - multiset{page[0]}
    ensures PairwiseDisjoint(page[1..]) && forall p | p in page[1..] :: p in live && p.size >= 8
    ensures multiset(live) == all - multiset(gone + [page[0]])
    ensures (gone + [page[0]]) + page[1..] == gone + page
  {
    hide PairwiseDisjoint;
    OthersRemain(was, page);
    forall p | p in page[1..] ensures p in live && p.size >= 8 {
      assert p in multiset(was) - multiset{page[0]};
      assert p in multiset(live);
    }
    GoesOn(gone, page);
  }

  lemma NewSize(n: U64)
    ensures n + 8 < 0x1_0000_0000_0000_0000 ==> Wrap(8 + n) == 8 + n
    ensures n + 8 >= 0x1_0000_0000_0000_0000 ==> Wrap(8 + n) < 8
  {
  }

  /** A region that operator new returned for a new page, and the block at its start. */
  lemma PageMade(live: seq<Region>, pages: seq<Region>, blocks: seq<Region>, offset: nat, page: Region, size: U64)
    requires Sound(pages, blocks, offset) && PairwiseDisjoint(live + [page]) && forall p | p in pages :: p in live
    requires page.addr % 16 == 0 && page.End() <= 0xFFFF_FFFF_FFFF_0000
    requires page.size == Wrap(8 + if size > PAGE_DATA then size else PAGE_DATA)
    ensures (page.addr + 8) % 8 == 0
    ensures Lies(Region(page.addr + 8, size), [page] + pages) <==> size + 8 < 0x1_0000_0000_0000_0000
    ensures size + 8 < 0x1_0000_0000_0000_0000 ==>
              Sound([page] + pages, blocks + [Region(page.addr + 8, size)], size)
  {
    hide Sound, Lies, Wrap, PairwiseDisjoint;
    var block := Region(page.addr + 8, size);
    FreshRegion(live, page, pages);
    Aligned16(page.addr);
    NewSize(if size > PAGE_DATA then size else PAGE_DATA);
    if size + 8 < 0x1_0000_0000_0000_0000 {
      NewPageSound(pages, blocks, offset, page, size);
      LiesInFirst(block, [page] + pages);
    } else {
      NotInNewPage(block, pages, blocks, offset, page);
    }
  }

  lemma NotInNewPage(block: Region, pages: seq<Region>, blocks: seq<Region>, offset: nat, page: Region)
    requires Sound(pages, blocks, offset) && page.End() <= 0xFFFF_FFFF_FFFF_0000 && page.size < 8
    requires block.addr == page.addr + 8 && block.size + 8 >= 0x1_0000_0000_0000_0000
    ensures !Lies(block, [page] + pages)
  {
    forall p | p in [page] + pages ensures !Inside(block, p) {
      assert p == page || p in pages;
    }
  }

  lemma GoesOn(gone: seq<Region>, page: seq<Region>)
    requires page != []
    ensures (gone + [page[0]]) + page[1..] == gone + page
    ensures multiset(gone + [page[0]]) == multiset(gone) + multiset{page[0]}
  {
  }

  lemma OthersRemain(live: seq<Region>, pages: seq<Region>)
    requires pages != [] && PairwiseDisjoint(pages) && forall p | p in pages :: p in live && p.size >= 8
    ensures PairwiseDisjoint(pages[1..])
    ensures forall p | p in pages[1..] :: p in pages && p in multiset(live) - multiset{pages[0]}
  {
    forall p | p in pages[1..] ensures p in pages && p in multiset(live) - multiset{pages[0]} {
      var i :| 1 <= i < |pages| && pages[i] == p;
      assert Disjoint(pages[0], pages[i]);
      assert p in multiset(live);
    }
  }

  // ----- Runs of several allocators on one heap.

  /** One call: allocate on allocator k, or a new allocator moved from allocator k. */
  datatype Op = Allocate(k: nat, size: U64) | Move(k: nat)

  /** What a call returned. */
  datatype Result = Block(addr: nat) | BadAlloc | Moved

  /** The contents of an allocator. */
  datatype Snap = Snap(pages: seq<Region>, blocks: seq<Region>, offset: nat)

  ghost function SnapOf(a: Allocator): Snap
    reads a
  {
    Snap(a.pages, a.blocks, a.offset)
  }

  /** Every call names one of the allocators there are by then. */
  predicate WellNamed(ops: seq<Op>, n: nat)
    decreases |ops|
  {
    ops == [] || (ops[0].k < n && WellNamed(ops[1..], if ops[0].Move? then n + 1 else n))
  }

  function MoveCount(ops: seq<Op>): nat
    decreases |ops|
  {
    if ops == [] then 0 else MoveCount(ops[..|ops| - 1]) + if ops[|ops| - 1].Move? then 1 else 0
  }

  /** Moves and allocations are answered as such. */
  predicate Matching(ops: seq<Op>, results: seq<Result>) {
    |results| <= |ops| && forall i | 0 <= i < |results| :: ops[i].Move? <==> results[i].Moved?
  }

  /** The blocks that were returned, in order. */
  function Successes(ops: seq<Op>, results: seq<Result>): seq<Region>
    requires |ops| == |results|
    decreases |ops|
  {
    if ops == [] then []
    else
      var n := |ops| - 1;
      Successes(ops[..n], results[..n])
      + if ops[n].Allocate? && results[n].Block? then [Region(results[n].addr, ops[n].size)] else []
  }

  /** What the allocators hold after one call, given what they held before it. */
  function AfterCall(held: seq<seq<Region>>, op: Op, result: Result): seq<seq<Region>> {
    if op.k >= |held| then held
    else if op.Move? then held[op.k := []] + [held[op.k]]
    else if result.Block? then held[op.k := held[op.k] + [Region(result.addr, op.size)]]
    else held
  }

  /** The blocks that each allocator holds in the end, in order; a move takes them along. */
  function Holdings(ops: seq<Op>, results: seq<Result>): seq<seq<Region>>
    requires |ops| == |results|
    decreases |ops|
  {
    if ops == [] then [[]]
    else var n := |ops| - 1; AfterCall(Holdings(ops[..n], results[..n]), ops[n], results[n])
  }

  function Blocks(snaps: seq<Snap>): seq<seq<Region>> {
    seq(|snaps|, i requires 0 <= i < |snaps| => snaps[i].blocks)
  }

  function Refused(results: seq<Result>): nat
    decreases |results|
  {
    if results == [] then 0 else Refused(results[..|results| - 1]) + if results[|results| - 1] == BadAlloc then 1 else 0
  }

  ghost predicate PagesApart(s: seq<Region>, t: seq<Region>) {
    forall p, q | p in s && q in t :: Disjoint(p, q)
  }

  /** Several allocators on one heap: each is sound, their pages are live and apart. */
  ghost predicate World(live: seq<Region>, snaps: seq<Snap>) {
    && PairwiseDisjoint(live)
    && (forall k | 0 <= k < |snaps| :: Sound(snaps[k].pages, snaps[k].blocks, snaps[k].offset))
    && (forall k | 0 <= k < |snaps| :: forall p | p in snaps[k].pages :: p in live)
    && (forall j, k | 0 <= j < |snaps| && 0 <= k < |snaps| && j != k :: PagesApart(snaps[j].pages, snaps[k].pages))
  }

  /** The block belongs to one of the allocators. */
  ghost predicate Held(b: Region, snaps: seq<Snap>) {
    exists k :: 0 <= k < |snaps| && b in snaps[k].blocks
  }

  /** A new block of allocator k is apart from every block of every allocator. */
  lemma ApartFromAll(live: seq<Region>, snaps: seq<Snap>, k: nat, s: Snap, block: Region, added: seq<Region>)
    requires World(live, snaps) && k < |snaps| && Sound(s.pages, s.blocks, s.offset)
    requires s.blocks == snaps[k].blocks + [block] && s.pages == added + snaps[k].pages
    requires PairwiseDisjoint(live + added)
    ensures forall b | Held(b, snaps) :: Disjoint(b, block)
    ensures World(live + added, snaps[k := s])
  {
    hide Sound;
    SoundEnds(s.pages, s.blocks, s.offset);
    AddedApart(live, snaps, k, added);
    var next := snaps[k := s];
    forall i, j | 0 <= i < |next| && 0 <= j < |next| && i != j ensures PagesApart(next[i].pages, next[j].pages) {
      assert PagesApart(snaps[i].pages, snaps[j].pages);
    }
    assert block in s.blocks;
    forall b | Held(b, snaps) ensures Disjoint(b, block) {
      var j :| 0 <= j < |snaps| && b in snaps[j].blocks;
      if j == k {
        var i :| 0 <= i < |snaps[k].blocks| && snaps[k].blocks[i] == b;
        assert s.blocks[i] == b && s.blocks[|snaps[k].blocks|] == block;
      } else {
        SoundEnds(snaps[j].pages, snaps[j].blocks, snaps[j].offset);
        assert Lies(b, snaps[j].pages) && Lies(block, s.pages);
        var q :| q in snaps[j].pages && Inside(b, q);
        var p :| p in s.pages && Inside(block, p);
        assert PagesApart(next[j].pages, next[k].pages);
        ApartByPage(b, q, block, p);
      }
    }
  }

  /** Pages that the heap has just handed out are apart from all pages of all allocators. */
  lemma AddedApart(live: seq<Region>, snaps: seq<Snap>, k: nat, added: seq<Region>)
    requires World(live, snaps) && k < |snaps| && PairwiseDisjoint(live + added)
    ensures forall j | 0 <= j < |snaps| :: PagesApart(snaps[j].pages, added) && PagesApart(added, snaps[j].pages)
  {
    hide Sound;
    forall j, p, q | 0 <= j < |snaps| && p in snaps[j].pages && q in added ensures Disjoint(p, q) && Disjoint(q, p) {
      var x :| 0 <= x < |live| && live[x] == p;
      var y :| 0 <= y < |added| && added[y] == q;
      assert (live + added)[x] == p && (live + added)[|live| + y] == q;
    }
  }

  /** A move keeps everything where it is. */
  lemma MovedWorld(live: seq<Region>, snaps: seq<Snap>, k: nat)
    requires World(live, snaps) && k < |snaps|
    ensures World(live, snaps[k := Snap([], [], 0)] + [snaps[k]])
    ensures forall b | Held(b, snaps) :: Held(b, snaps[k := Snap([], [], 0)] + [snaps[k]])
  {
    hide Sound;
    NothingSound();
    var next := snaps[k := Snap([], [], 0)] + [snaps[k]];
    forall i, j | 0 <= i < |next| && 0 <= j < |next| && i != j ensures PagesApart(next[i].pages, next[j].pages) {
      var x, y := if i == |snaps| then k else i, if j == |snaps| then k else j;
      assert x != y ==> PagesApart(snaps[x].pages, snaps[y].pages);
    }
    forall b | Held(b, snaps) ensures Held(b, next) {
      var j :| 0 <= j < |snaps| && b in snaps[j].blocks;
      assert b in next[if j == k then |snaps| else j].blocks;
    }
  }

  lemma SuccessesSnoc(ops: seq<Op>, results: seq<Result>, i: nat, result: Result)
    requires i < |ops| && |results| == i && Matching(ops, results) && (ops[i].Move? <==> result.Moved?)
    ensures Matching(ops, results + [result])
    ensures MoveCount(ops[..i + 1]) == MoveCount(ops[..i]) + if ops[i].Move? then 1 else 0
    ensures Successes(ops[..i + 1], results + [result]) == Successes(ops[..i], results)
            + if ops[i].Allocate? && result.Block? then [Region(result.addr, ops[i].size)] else []
    ensures Refused(results + [result]) == Refused(results) + if result == BadAlloc then 1 else 0
    ensures Holdings(ops[..i + 1], results + [result]) == AfterCall(Holdings(ops[..i], results), ops[i], result)
  {
    assert ops[..i + 1][..i] == ops[..i] && (results + [result])[..i] == results;
  }

  lemma {:induction false} NamedStep(ops: seq<Op>, n: nat, i: nat)
    requires WellNamed(ops, n) && i <= |ops|
    ensures WellNamed(ops[i..], n + MoveCount(ops[..i]))
  {
    if i == 0 {
      assert ops[0..] == ops && ops[..0] == [];
    } else {
      NamedStep(ops, n, i - 1);
      assert ops[i - 1..][1..] == ops[i..] && ops[i - 1..][0] == ops[i - 1];
      assert ops[..i][..i - 1] == ops[..i - 1];
    }
  }

  lemma NamedHere(ops: seq<Op>, n: nat, i: nat)
    requires WellNamed(ops, n) && i < |ops|
    ensures ops[i].k < n + MoveCount(ops[..i])
  {
    NamedStep(ops, n, i);
    assert ops[i..][0] == ops[i];
  }

  /** The pages of all allocators. */
  function AllPages(snaps: seq<Snap>): seq<Region>
    decreases |snaps|
  {
    if snaps == [] then [] else AllPages(snaps[..|snaps| - 1]) + snaps[|snaps| - 1].pages
  }

  /** Two balances in a row. */
  lemma Balance(l0: multiset<Region>, p: multiset<Region>, l1: multiset<Region>, a1: multiset<Region>,
                l2: multiset<Region>, a2: multiset<Region>)
    requires l1 + p == l0 + a1 && l2 + a1 == l1 + a2
    ensures l2 + p == l0 + a2
  {
    forall r: Region ensures (l2 + p)[r] == (l0 + a2)[r] {
      assert (l1 + p)[r] == (l0 + a1)[r] && (l2 + a1)[r] == (l1 + a2)[r];
    }
  }

  lemma SumSwap(b: multiset<Region>, c: multiset<Region>, last: multiset<Region>)
    ensures (b + c) + last == (b + last) + c
  {
  }

  /** One allocator gets more pages. */
  lemma {:induction false} AllPagesGrow(snaps: seq<Snap>, k: nat, s: Snap, added: seq<Region>)
    requires k < |snaps| && s.pages == added + snaps[k].pages
    ensures multiset(AllPages(snaps[k := s])) == multiset(AllPages(snaps)) + multiset(added)
    decreases |snaps|
  {
    hide AllPages;
    var n, next := |snaps| - 1, snaps[k := s];
    AllPagesLast(snaps);
    AllPagesLast(next);
    if k == n {
      assert next[..n] == snaps[..n];
      assert multiset(s.pages) == multiset(added) + multiset(snaps[n].pages);
      SumSwap(multiset(AllPages(snaps[..n])), multiset(added), multiset(snaps[n].pages));
    } else {
      AllPagesGrow(snaps[..n], k, s, added);
      assert next[..n] == snaps[..n][k := s] && next[n] == snaps[n];
      SumSwap(multiset(AllPages(snaps[..n])), multiset(added), multiset(snaps[n].pages));
    }
  }

  lemma AllPagesLast(snaps: seq<Snap>)
    requires snaps != []
    ensures multiset(AllPages(snaps)) == multiset(AllPages(snaps[..|snaps| - 1])) + multiset(snaps[|snaps| - 1].pages)
  {
  }

  lemma AllPagesMove(snaps: seq<Snap>, k: nat)
    requires k < |snaps|
    ensures multiset(AllPages(snaps[k := Snap([], [], 0)] + [snaps[k]])) == multiset(AllPages(snaps))
  {
    hide AllPages;
    var next := snaps[k := Snap([], [], 0)];
    assert next[k := snaps[k]] == snaps && snaps[k].pages == snaps[k].pages + next[k].pages;
    AllPagesGrow(next, k, snaps[k], snaps[k].pages);
    AllPagesLast(next + [snaps[k]]);
    assert (next + [snaps[k]])[..|snaps|] == next;
  }

  lemma {:induction false} InAllPages(snaps: seq<Snap>, p: Region)
    ensures p in AllPages(snaps) <==> exists k :: 0 <= k < |snaps| && p in snaps[k].pages
    decreases |snaps|
  {
    if snaps != [] {
      var n := |snaps| - 1;
      InAllPages(snaps[..n], p);
      if k :| 0 <= k < |snaps| && p in snaps[k].pages {
        assert k < n ==> snaps[..n][k] == snaps[k];
      }
    }
  }

  /** No page belongs to two allocators, or twice to one. */
  lemma {:induction false} AllPagesApart(live: seq<Region>, snaps: seq<Snap>)
    requires World(live, snaps)
    ensures PairwiseDisjoint(AllPages(snaps))
    decreases |snaps|
  {
    hide Sound;
    if snaps != [] {
      var n := |snaps| - 1;
      AllPagesApart(live, snaps[..n]);
      SoundEnds(snaps[n].pages, snaps[n].blocks, snaps[n].offset);
      var before, last := AllPages(snaps[..n]), snaps[n].pages;
      var all := before + last;
      forall i, j | 0 <= i < j < |all| ensures Disjoint(all[i], all[j]) {
        if i < |before| <= j {
          InAllPages(snaps[..n], all[i]);
          var k :| 0 <= k < n && all[i] in snaps[..n][k].pages;
          assert PagesApart(snaps[k].pages, last) && all[j] in last;
        }
      }
    }
  }

  /** The allocators and their recorded contents. */
  ghost predicate Recorded(allocs: seq<Allocator>, snaps: seq<Snap>)
    reads allocs
  {
    && |allocs| == |snaps|
    && (forall i | 0 <= i < |allocs| :: SnapOf(allocs[i]) == snaps[i])
    && (forall i, j | 0 <= i < j < |allocs| :: allocs[i] != allocs[j])
  }

  lemma StillHeld(snaps: seq<Snap>, k: nat, s: Snap)
    requires k < |snaps| && snaps[k].blocks <= s.blocks
    ensures forall b | Held(b, snaps) :: Held(b, snaps[k := s])
    ensures forall b | b in s.blocks :: Held(b, snaps[k := s])
  {
    forall b | Held(b, snaps) ensures Held(b, snaps[k := s]) {
      var j :| 0 <= j < |snaps| && b in snaps[j].blocks;
      assert b in snaps[k := s][j].blocks;
    }
    forall b | b in s.blocks ensures Held(b, snaps[k := s]) {
      assert b in snaps[k := s][k].blocks;
    }
  }

  /** One allocate call among several allocators. */
  method AllocateStep(heap: Heap, allocs: seq<Allocator>, ghost snaps: seq<Snap>, k: nat, size: U64)
    returns (result: Result, ghost next: seq<Snap>)
    requires heap.Valid() && World(heap.live, snaps) && Recorded(allocs, snaps) && k < |allocs|
    requires !Wraps(snaps[k].pages, snaps[k].offset, size)
    modifies allocs[k], heap`live, heap`refusals
    ensures heap.Valid() && World(heap.live, next) && Recorded(allocs, next)
    ensures multiset(heap.live) + multiset(AllPages(snaps)) == multiset(old(heap.live)) + multiset(AllPages(next))
    ensures !result.Moved? && heap.refusals == old(heap.refusals) + if result == BadAlloc then 1 else 0
    ensures Blocks(next) == AfterCall(Blocks(snaps), Op.Allocate(k, size), result)
    ensures forall b | Held(b, snaps) :: Held(b, next)
    ensures result.Block? ==> Held(Region(result.addr, size), next)
    ensures result.Block? ==> forall b | Held(b, snaps) :: Disjoint(b, Region(result.addr, size))
  {
    hide Sound, PairwiseDisjoint, World, Held, PagesApart, Wraps, Lies, Disjoint, AllPages, Blocks;
    var it := allocs[k];
    WorldAt(heap.live, snaps, k);
    ghost var live := heap.live;
    var ok, addr := it.Allocate(heap, size);
    ghost var s := SnapOf(it);
    next := snaps[k := s];
    StillHeld(snaps, k, s);
    if ok {
      ghost var added := it.pages[..|it.pages| - |snaps[k].pages|];
      assert s.pages == added + snaps[k].pages;
      AllPagesGrow(snaps, k, s, added);
      assert heap.live == live + added;
      SumSwap(multiset(live), multiset(added), multiset(AllPages(snaps)));
      HeapIsDisjoint(heap);
      ApartFromAll(live, snaps, k, s, Region(addr, size), added);
      LastOf(snaps[k].blocks, Region(addr, size));
      result := Block(addr);
      BlocksAllocated(snaps, k, size, addr, s);
    } else {
      assert s == snaps[k] && next == snaps;
      result := BadAlloc;
    }
  }

  lemma BlocksAllocated(snaps: seq<Snap>, k: nat, size: U64, addr: nat, s: Snap)
    requires k < |snaps| && s.blocks == snaps[k].blocks + [Region(addr, size)]
    ensures Blocks(snaps[k := s]) == AfterCall(Blocks(snaps), Op.Allocate(k, size), Block(addr))
  {
  }

  lemma BlocksMoved(snaps: seq<Snap>, k: nat)
    requires k < |snaps|
    ensures Blocks(snaps[k := Snap([], [], 0)] + [snaps[k]]) == AfterCall(Blocks(snaps), Op.Move(k), Moved)
  {
  }

  lemma LastOf(s: seq<Region>, r: Region)
    ensures r in s + [r]
  {
  }

  /** One move among several allocators. */
  method MoveStep(heap: Heap, allocs: seq<Allocator>, ghost snaps: seq<Snap>, k: nat)
    returns (moved: Allocator, ghost next: seq<Snap>)
    requires heap.Valid() && World(heap.live, snaps) && Recorded(allocs, snaps) && k < |allocs|
    modifies allocs[k]
    ensures fresh(moved) && World(heap.live, next) && Recorded(allocs + [moved], next)
    ensures next == snaps[k := Snap([], [], 0)] + [snaps[k]]
    ensures Blocks(next) == AfterCall(Blocks(snaps), Op.Move(k), Moved)
    ensures multiset(AllPages(snaps)) == multiset(AllPages(next))
    ensures forall b | Held(b, snaps) :: Held(b, next)
  {
    hide Sound, PairwiseDisjoint, World, Held, PagesApart, AllPages, Lies, Blocks, AfterCall;
    WorldAt(heap.live, snaps, k);
    MovedWorld(heap.live, snaps, k);
    AllPagesMove(snaps, k);
    BlocksMoved(snaps, k);
    moved := new Allocator.Move(allocs[k], heap);
    next := snaps[k := Snap([], [], 0)] + [snaps[k]];
  }

  /** The sums of this call do not fit 64 bits. */
  predicate Overflows(op: Op, snaps: seq<Snap>) {
    op.Allocate? && op.k < |snaps| && Wraps(snaps[op.k].pages, snaps[op.k].offset, op.size)
  }

  /** Every size leaves room above the highest page. */
  ghost predicate Fitting(ops: seq<Op>, top: nat) {
    forall op | op in ops && op.Allocate? :: top + op.size + 8 < 0x1_0000_0000_0000_0000
  }

  /** Any calls of allocate and of the move constructor, on the first allocator and on those moved from it,
      up to the first call whose sums do not fit 64 bits, if there is one. Each block that is returned lies
      in a live page, aligned and apart from every other block of every allocator, before and after moves;
      there is one bad_alloc for each refusal of the heap. */
  method Use(heap: Heap, a: Allocator, ops: seq<Op>)
    returns (allocs: seq<Allocator>, results: seq<Result>, ghost snaps: seq<Snap>)
    requires a.Valid(heap) && a.blocks == [] && WellNamed(ops, 1)
    modifies a, heap`live, heap`refusals
    ensures |results| <= |ops| && (|results| < |ops| ==> Overflows(ops[|results|], snaps))
    ensures Fitting(ops, heap.top) ==> |results| == |ops|
    ensures Recorded(allocs, snaps) && |allocs| == 1 + MoveCount(ops[..|results|]) && allocs[0] == a
    ensures forall i | 1 <= i < |allocs| :: fresh(allocs[i])
    ensures heap.Valid() && World(heap.live, snaps)
    ensures multiset(heap.live) + multiset(old(a.pages)) == multiset(old(heap.live)) + multiset(AllPages(snaps))
    ensures Matching(ops, results)
    ensures heap.refusals == old(heap.refusals) + Refused(results)
    ensures Blocks(snaps) == Holdings(ops[..|results|], results)
    ensures PairwiseDisjoint(Successes(ops[..|results|], results))
    ensures forall b | b in Successes(ops[..|results|], results) :: Held(b, snaps)
  {
    hide Sound, PairwiseDisjoint, World, Held, PagesApart, Disjoint, Successes, Refused, AllPages, Holdings,
         AfterCall, MoveCount, Matching, WellNamed, Fitting, Wraps, Blocks;
    allocs, results, snaps := [a], [], [SnapOf(a)];
    HeapIsDisjoint(heap);
    FirstWorld(heap.live, SnapOf(a));
    assert ops[..0] == [];
    NothingYet(ops, SnapOf(a));
    for i := 0 to |ops|
      invariant Recorded(allocs, snaps) && |allocs| == 1 + MoveCount(ops[..i]) && allocs[0] == a
      invariant forall j | 1 <= j < |allocs| :: fresh(allocs[j])
      invariant heap.Valid() && World(heap.live, snaps)
      invariant multiset(heap.live) + multiset(old(a.pages)) == multiset(old(heap.live)) + multiset(AllPages(snaps))
      invariant |results| == i && Matching(ops, results)
      invariant heap.refusals == old(heap.refusals) + Refused(results)
      invariant Blocks(snaps) == Holdings(ops[..i], results)
      invariant PairwiseDisjoint(Successes(ops[..i], results))
      invariant forall b | b in Successes(ops[..i], results) :: Held(b, snaps)
    {
      NamedHere(ops, 1, i);
      FittingNever(heap, ops, i, snaps);
      if ops[i].Allocate? && Wraps(allocs[ops[i].k].pages, allocs[ops[i].k].offset, ops[i].size) {
        return;
      }
      var result;
      ghost var was, live := snaps, heap.live;
      ghost var done := Successes(ops[..i], results);
      allocs, result, snaps := Perform(heap, allocs, snaps, ops[i]);
      Balance(multiset(old(heap.live)), multiset(old(a.pages)), multiset(live), multiset(AllPages(was)),
              multiset(heap.live), multiset(AllPages(snaps)));
      SuccessesSnoc(ops, results, i, result);
      if result.Block? {
        Snoc(done, Region(result.addr, ops[i].size));
      } else {
        assert done + [] == done;
      }
      results := results + [result];
    }
    assert ops[..|ops|] == ops;
  }

  /** One call of either kind. */
  method Perform(heap: Heap, allocs: seq<Allocator>, ghost snaps: seq<Snap>, op: Op)
    returns (allocs': seq<Allocator>, result: Result, ghost next: seq<Snap>)
    requires heap.Valid() && World(heap.live, snaps) && Recorded(allocs, snaps)
    requires op.k < |allocs| && !Overflows(op, snaps)
    modifies allocs[op.k], heap`live, heap`refusals
    ensures heap.Valid() && World(heap.live, next) && Recorded(allocs', next)
    ensures allocs <= allocs' && |allocs'| == |allocs| + if op.Move? then 1 else 0
    ensures forall j | |allocs| <= j < |allocs'| :: fresh(allocs'[j])
    ensures multiset(heap.live) + multiset(AllPages(snaps)) == multiset(old(heap.live)) + multiset(AllPages(next))
    ensures op.Move? <==> result.Moved?
    ensures heap.refusals == old(heap.refusals) + if result == BadAlloc then 1 else 0
    ensures Blocks(next) == AfterCall(Blocks(snaps), op, result)
    ensures forall b | Held(b, snaps) :: Held(b, next)
    ensures result.Block? ==> Held(Region(result.addr, op.size), next)
    ensures result.Block? ==> forall b | Held(b, snaps) :: Disjoint(b, Region(result.addr, op.size))
  {
    hide World, Held, Disjoint, AllPages, Blocks, AfterCall, Wraps;
    allocs' := allocs;
    if op.Move? {
      var moved;
      moved, next := MoveStep(heap, allocs, snaps, op.k);
      allocs', result := allocs + [moved], Moved;
    } else {
      result, next := AllocateStep(heap, allocs, snaps, op.k, op.size);
    }
  }

  lemma FittingNever(heap: Heap, ops: seq<Op>, i: nat, snaps: seq<Snap>)
    requires heap.Valid() && World(heap.live, snaps) && i < |ops|
    ensures Fitting(ops, heap.top) ==> !Overflows(ops[i], snaps)
  {
    hide Sound, PairwiseDisjoint, World, Wraps;
    var op := ops[i];
    if Fitting(ops, heap.top) && op.Allocate? && op.k < |snaps| {
      assert op in ops;
      WorldAt(heap.live, snaps, op.k);
      var s := snaps[op.k];
      NeverWraps(s.pages, s.blocks, s.offset, op.size, heap.top);
    }
  }

  lemma HeapIsDisjoint(heap: Heap)
    requires heap.Valid()
    ensures PairwiseDisjoint(heap.live)
  {
  }

  lemma NothingYet(ops: seq<Op>, s: Snap)
    ensures Successes([], []) == [] && PairwiseDisjoint([]) && Refused([]) == 0 && MoveCount([]) == 0
    ensures Holdings([], []) == [[]] && Matching(ops, [])
    ensures s.blocks == [] ==> Blocks([s]) == [[]]
  {
  }

  lemma FirstWorld(live: seq<Region>, s: Snap)
    requires PairwiseDisjoint(live) && Sound(s.pages, s.blocks, s.offset) && forall p | p in s.pages :: p in live
    ensures World(live, [s]) && AllPages([s]) == s.pages
  {
    assert [s][..0] == [] && [] + s.pages == s.pages;
  }

  lemma WorldAt(live: seq<Region>, snaps: seq<Snap>, k: nat)
    requires World(live, snaps) && k < |snaps|
    ensures Sound(snaps[k].pages, snaps[k].blocks, snaps[k].offset) && forall p | p in snaps[k].pages :: p in live
  {
  }

  /** The destructors, one after the other. */
  method DestroyAll(heap: Heap, allocs: seq<Allocator>, ghost snaps: seq<Snap>)
    requires heap.Valid() && World(heap.live, snaps) && Recorded(allocs, snaps)
    modifies allocs, heap`live, heap`freed
    ensures heap.Valid()
    ensures multiset(heap.live) == multiset(old(heap.live)) - multiset(AllPages(snaps))
    ensures heap.freed == old(heap.freed) + AllPages(snaps)
  {
    hide Sound, PairwiseDisjoint, World, PagesApart, AllPages, Lies;
    assert snaps[..0] == [] && snaps[0..] == snaps;
    NoPages();
    for i := 0 to |allocs|
      invariant heap.Valid() && heap.freed == old(heap.freed) + AllPages(snaps[..i])
      invariant multiset(heap.live) == multiset(old(heap.live)) - multiset(AllPages(snaps[..i]))
      invariant forall j | i <= j < |allocs| :: SnapOf(allocs[j]) == snaps[j]
      invariant World(heap.live, snaps[i..])
    {
      DestroyNext(heap, allocs[i], snaps[i..]);
      PagesUpTo(snaps, i);
      FreedSoFar(old(heap.freed), AllPages(snaps[..i]), snaps[i].pages);
      LeftSoFar(multiset(old(heap.live)), AllPages(snaps[..i]), snaps[i].pages);
      assert snaps[i..][1..] == snaps[i + 1..];
    }
    assert snaps[..|allocs|] == snaps;
  }

  /** One destructor among several. */
  method DestroyNext(heap: Heap, a: Allocator, ghost snaps: seq<Snap>)
    requires heap.Valid() && World(heap.live, snaps) && snaps != [] && SnapOf(a) == snaps[0]
    modifies a, heap`live, heap`freed
    ensures heap.Valid() && World(heap.live, snaps[1..])
    ensures multiset(heap.live) == multiset(old(heap.live)) - multiset(snaps[0].pages)
    ensures heap.freed == old(heap.freed) + snaps[0].pages
  {
    hide Sound, PairwiseDisjoint, World, PagesApart, Lies;
    WorldAt(heap.live, snaps, 0);
    a.Destroy(heap);
    HeapIsDisjoint(heap);
    RestWorld(old(heap.live), heap.live, snaps);
  }

  lemma FreedSoFar(freed: seq<Region>, before: seq<Region>, pages: seq<Region>)
    ensures freed + before + pages == freed + (before + pages)
  {
  }

  lemma LeftSoFar(live: multiset<Region>, before: seq<Region>, pages: seq<Region>)
    ensures live - multiset(before) - multiset(pages) == live - multiset(before + pages)
  {
    assert multiset(before + pages) == multiset(before) + multiset(pages);
  }

  /** What the destructor of one allocator frees is of no concern to the others. */
  lemma RestWorld(live: seq<Region>, left: seq<Region>, snaps: seq<Snap>)
    requires World(live, snaps) && snaps != [] && PairwiseDisjoint(left)
    requires multiset(left) == multiset(live) - multiset(snaps[0].pages)
    ensures World(left, snaps[1..])
  {
    hide Sound;
    forall j, p | 1 <= j < |snaps| && p in snaps[j].pages ensures p in left {
      OthersLive(live, snaps, 0, j, p);
      assert p in multiset(live) - multiset(snaps[0].pages);
      assert p in multiset(left);
    }
    var rest := snaps[1..];
    forall j, k | 0 <= j < |rest| && 0 <= k < |rest| && j != k ensures PagesApart(rest[j].pages, rest[k].pages) {
      assert PagesApart(snaps[j + 1].pages, snaps[k + 1].pages);
    }
  }

  lemma NoPages()
    ensures AllPages([]) == []
  {
  }

  lemma PagesUpTo(snaps: seq<Snap>, i: nat)
    requires i < |snaps|
    ensures AllPages(snaps[..i + 1]) == AllPages(snaps[..i]) + snaps[i].pages
  {
    assert snaps[..i + 1][..i] == snaps[..i];
  }

  /** A page of another allocator is not one of these. */
  lemma OthersLive(live: seq<Region>, snaps: seq<Snap>, i: nat, j: nat, p: Region)
    requires World(live, snaps) && i < |snaps| && j < |snaps| && i != j && p in snaps[j].pages
    ensures p !in snaps[i].pages
  {
    hide Sound;
    WorldAt(live, snaps, j);
    SoundEnds(snaps[j].pages, snaps[j].blocks, snaps[j].offset);
    assert PagesApart(snaps[i].pages, snaps[j].pages);
    assert !Disjoint(p, p);
  }

  /** A whole life of an allocator and of everything moved from it: any allocate and move calls, up to the
      first one whose sums do not fit 64 bits, then all destructors; snaps is what they found. The blocks that
      the calls returned are aligned, inside pages and apart; the pages are apart and each is freed once; the
      heap is left as it was. */
  method Life(heap: Heap, ops: seq<Op>)
    returns (results: seq<Result>, ghost snaps: seq<Snap>, ghost pages: seq<Region>)
    requires heap.Valid() && WellNamed(ops, 1)
    modifies heap`live, heap`refusals, heap`freed
    ensures |results| <= |ops| && (|results| < |ops| ==> Overflows(ops[|results|], snaps))
    ensures Fitting(ops, heap.top) ==> |results| == |ops|
    ensures Matching(ops, results)
    ensures old(heap.refusals) + Refused(results) <= heap.refusals <= old(heap.refusals) + Refused(results) + 1
    ensures Blocks(snaps) == Holdings(ops[..|results|], results) && pages == AllPages(snaps)
    ensures PairwiseDisjoint(Successes(ops[..|results|], results)) && PairwiseDisjoint(pages)
    ensures forall b | b in Successes(ops[..|results|], results) :: b.addr % 8 == 0 && Lies(b, pages)
    ensures heap.Valid() && multiset(heap.live) == multiset(old(heap.live)) && heap.freed == old(heap.freed) + pages
  {
    hide Sound, PairwiseDisjoint, World, Held, Lies, Recorded, AllPages, Successes, Refused, Holdings, Blocks, Fitting,
         Overflows;
    var a := new Allocator(heap);
    ghost var before, first := heap.live, a.pages;
    var allocs;
    allocs, results, snaps := Use(heap, a, ops);
    pages := AllPages(snaps);
    AllPagesApart(heap.live, snaps);
    forall b | b in Successes(ops[..|results|], results) ensures b.addr % 8 == 0 && Lies(b, pages) {
      HeldLies(heap.live, snaps, b);
    }
    ghost var live := heap.live;
    DestroyAll(heap, allocs, snaps);
    Returned(multiset(old(heap.live)), multiset(first), multiset(live), multiset(pages));
  }

  lemma HeldLies(live: seq<Region>, snaps: seq<Snap>, b: Region)
    requires World(live, snaps) && Held(b, snaps)
    ensures b.addr % 8 == 0 && Lies(b, AllPages(snaps))
  {
    hide Sound;
    var k :| 0 <= k < |snaps| && b in snaps[k].blocks;
    SoundEnds(snaps[k].pages, snaps[k].blocks, snaps[k].offset);
    var p :| p in snaps[k].pages && Inside(b, p);
    InAllPages(snaps, p);
  }

  lemma Returned(base: multiset<Region>, first: multiset<Region>, live: multiset<Region>, pages: multiset<Region>)
    requires live + first == (base + first) + pages
    ensures live - pages == base
  {
    forall r: Region ensures (live - pages)[r] == base[r] {
      assert (live + first)[r] == ((base + first) + pages)[r];
    }
  }
}
