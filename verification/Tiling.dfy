/** How the changes the allocator makes to headers keep the blocks tiling the heap
    (src/gc-7.2/allchblk.c:499-575, 834-896, src/gc-7.2/alloc.c:1042-1090). */
module Tiling {
  import opened HeaderIndex
  import opened FreeLists

  predicate InRange(p: Page, n: nat, q: Page) {
    p <= q < p + n
  }

  /** The pages `p .. p + n`. */
  function Pages(p: Page, n: nat): (s: set<Page>)
    ensures forall q: Page :: q in s <==> p <= q < p + n
  {
    set q: Page | p <= q < p + n && InRange(p, n, q)
  }

  lemma {:induction false} PagesCount(p: Page, n: nat)
    ensures |Pages(p, n)| == n
  {
    if n > 0 {
      PagesCount(p, n - 1);
      assert Pages(p, n) == Pages(p, n - 1) + {p + n - 1};
    } else {
      assert Pages(p, n) == {};
    }
  }

  /** The heap pages in free blocks. */
  ghost function FreeSet(index: Index, owner: map<Page, Page>): set<Page> {
    set q | q in owner && IsFree(index, owner[q])
  }

  /** The used blocks and their object sizes. */
  ghost function UsedBlocks(index: Index): map<Page, nat> {
    map p | p in index && IsUsed(index, p) :: index[p].h.sz
  }

  /** No free block is followed by a free block, but for those in `loose`. */
  ghost predicate NoAdjacent(index: Index, loose: set<Page>) {
    forall p: Page :: ApartAt(index, loose, p)
  }

  ghost predicate ApartAt(index: Index, loose: set<Page>, p: Page) {
    IsFree(index, p) && p !in loose ==> !IsFree(index, p + SizeOf(index, p))
  }

  lemma ShapeTiled(index: Index, index': Index, owner: map<Page, Page>)
    requires SameShape(index, index') && Tiled(index, owner)
    ensures Tiled(index', owner)
    ensures FreeSet(index', owner) == FreeSet(index, owner) && UsedBlocks(index') == UsedBlocks(index)
  {
    forall q: Page ensures TiledAt(index', owner, q) { assert TiledAt(index, owner, q); }
    forall p: Page, q: Page ensures CoverRight(index', owner, p, q) { assert CoverRight(index, owner, p, q); }
  }

  lemma ShapeAdjacent(index: Index, index': Index, loose: set<Page>)
    requires SameShape(index, index') && NoAdjacent(index, loose)
    ensures NoAdjacent(index', loose)
  {
    forall p: Page ensures ApartAt(index', loose, p) { assert ApartAt(index, loose, p); }
  }

  // ---- Rewriting a range of whole blocks ----

  /** No block reaches over an end of the range `p .. p + n`. */
  ghost predicate Whole(owner: map<Page, Page>, p: Page, n: nat) {
    forall q | q in owner :: p <= q < p + n <==> p <= owner[q] < p + n
  }

  lemma BlockWhole(index: Index, owner: map<Page, Page>, p: Page)
    requires Tiled(index, owner) && IsHeader(index, p)
    ensures Whole(owner, p, SizeOf(index, p))
    ensures forall q: Page | p <= q < p + SizeOf(index, p) :: q in owner && owner[q] == p
  {
    var n := SizeOf(index, p);
    forall q: Page | p <= q < p + n ensures q in owner && owner[q] == p { CoveredOwned(index, owner, p, q); }
    forall q | q in owner ensures p <= q < p + n <==> p <= owner[q] < p + n { TiledOwner(index, owner, q); }
  }

  lemma WholeJoined(owner: map<Page, Page>, p: Page, k: nat, n: nat)
    requires k <= n && Whole(owner, p, k) && Whole(owner, p + k, n - k)
    ensures Whole(owner, p, n)
  {
  }

  /** The owners when the range `p .. p + n` becomes a block of `k` pages and one of the others. */
  ghost function Retiled(owner: map<Page, Page>, p: Page, k: nat, n: nat): map<Page, Page>
    requires k <= n
  {
    map q | q in owner.Keys + Pages(p, n) :: if p <= q < p + k then p else if p + k <= q < p + n then p + k
      else owner[q]
  }

  /** The index describes the block of `n` pages at `p`. */
  ghost predicate BlockAt(index: Index, p: Page, n: nat) {
    && IsHeader(index, p) && SizeOf(index, p) == n
    && (index[p].h.free ==> index[p].h.sz % 4096 == 0)
    && (forall q: Page | p <= q < p + n :: EntryRight(index, p, q))
  }

  lemma RetiledTiled(index: Index, index': Index, owner: map<Page, Page>, p: Page, k: nat, n: nat)
    requires Tiled(index, owner) && Whole(owner, p, n) && p >= 2 && 0 < k <= n
    requires forall q: Page | !(p <= q < p + n) :: Same(index, index', q)
    requires BlockAt(index', p, k) && (k < n ==> BlockAt(index', p + k, n - k))
    ensures Tiled(index', Retiled(owner, p, k, n))
  {
    var owner' := Retiled(owner, p, k, n);
    forall q: Page ensures TiledAt(index', owner', q) {
      assert TiledAt(index, owner, q);
      if p <= q < p + n {
        assert EntryRight(index', owner'[q], q);
      } else {
        assert Same(index, index', q);
        if q in owner { assert Same(index, index', owner[q]); }
      }
    }
    forall b: Page, q: Page ensures CoverRight(index', owner', b, q) {
      if p <= b < p + n {
        assert EntryRight(index', if b < p + k then p else p + k, b);
      } else {
        assert Same(index, index', b) && CoverRight(index, owner, b, q);
      }
    }
  }

  /** Rewriting a range of free pages into free blocks changes neither the free pages nor the used
      blocks. */
  lemma RetiledFree(index: Index, index': Index, owner: map<Page, Page>, p: Page, k: nat, n: nat)
    requires Tiled(index, owner) && Whole(owner, p, n) && 0 < k <= n && Tiled(index', Retiled(owner, p, k, n))
    requires forall q: Page | !(p <= q < p + n) :: Same(index, index', q)
    requires forall q: Page | p <= q < p + n :: q in owner && IsFree(index, owner[q])
    requires IsFree(index', p) && (k < n ==> IsFree(index', p + k))
    ensures Retiled(owner, p, k, n).Keys == owner.Keys
    ensures FreeSet(index', Retiled(owner, p, k, n)) == FreeSet(index, owner)
    ensures UsedBlocks(index') == UsedBlocks(index)
  {
    var owner' := Retiled(owner, p, k, n);
    forall q: Page ensures q in FreeSet(index', owner') <==> q in FreeSet(index, owner) {
      if q in owner { assert Same(index, index', owner[q]) || p <= owner[q] < p + n; }
    }
    forall q: Page ensures IsUsed(index', q) <==> IsUsed(index, q)
                   ensures IsUsed(index, q) ==> index'[q] == index[q]
    {
      if p <= q < p + n {
        if IsHeader(index, q) { TiledEntry(index, owner, q); }
        if IsHeader(index', q) { TiledEntry(index', owner', q); }
      } else {
        assert Same(index, index', q);
      }
    }
  }

  /** A free block and the free block after it become one. */
  lemma MergedTiled(index: Index, owner: map<Page, Page>, p: Page, h: Header)
    requires Tiled(index, owner) && IsFree(index, p) && IsFree(index, p + SizeOf(index, p))
    requires h.free && h.sz == index[p].h.sz + index[p + SizeOf(index, p)].h.sz
    ensures var next := p + SizeOf(index, p);
            var n := SizeOf(index, p) + SizeOf(index, next);
            var index', owner' := (index - {next})[p := Hdr(h)], Retiled(owner, p, n, n);
            && Tiled(index', owner') && SizeOf(index', p) == n && owner'.Keys == owner.Keys
            && FreeSet(index', owner') == FreeSet(index, owner) && UsedBlocks(index') == UsedBlocks(index)
  {
    var k := SizeOf(index, p);
    var next := p + k;
    var n := k + SizeOf(index, next);
    var index' := (index - {next})[p := Hdr(h)];
    TiledEntry(index, owner, p);
    TiledEntry(index, owner, next);
    BlockWhole(index, owner, p);
    BlockWhole(index, owner, next);
    WholeJoined(owner, p, k, n);
    forall q: Page | p <= q < p + n ensures EntryRight(index', p, q) {
      CoveredOwned(index, owner, if q < next then p else next, q);
    }
    RetiledTiled(index, index', owner, p, n, n);
    RetiledFree(index, index', owner, p, n, n);
  }

  /** A free block is split in two. */
  lemma SplitTiled(index: Index, owner: map<Page, Page>, p: Page, k: nat, h: Header, rest: Header)
    requires Tiled(index, owner) && IsFree(index, p) && 0 < k < SizeOf(index, p)
    requires h.free && rest.free && h.sz == 4096 * k && rest.sz == index[p].h.sz - 4096 * k
    ensures var n := SizeOf(index, p);
            var index', owner' := index[p := Hdr(h)][p + k := Hdr(rest)], Retiled(owner, p, k, n);
            && Tiled(index', owner') && SizeOf(index', p) == k && SizeOf(index', p + k) == n - k
            && owner'.Keys == owner.Keys && p + k !in index
            && FreeSet(index', owner') == FreeSet(index, owner) && UsedBlocks(index') == UsedBlocks(index)
  {
    var n := SizeOf(index, p);
    var index' := index[p := Hdr(h)][p + k := Hdr(rest)];
    TiledEntry(index, owner, p);
    BlockWhole(index, owner, p);
    forall q: Page | p <= q < p + n ensures q == p || q !in index { CoveredOwned(index, owner, p, q); }
    RetiledTiled(index, index', owner, p, k, n);
    RetiledFree(index, index', owner, p, k, n);
  }

  /** A used block becomes free: its counts go, and its size is rounded up to whole pages. */
  lemma FreedTiled(index: Index, owner: map<Page, Page>, p: Page, h: Header)
    requires Tiled(index, owner) && IsUsed(index, p)
    requires h.free && h.sz == 4096 * SizeOf(index, p)
    ensures var n := SizeOf(index, p);
            n > 0 &&
            var index' := WithoutCounts(index, p, n)[p := Hdr(h)];
            && Tiled(index', owner) && SizeOf(index', p) == n
            && FreeSet(index', owner) == FreeSet(index, owner) + Pages(p, n)
            && FreeSet(index, owner) * Pages(p, n) == {}
            && UsedBlocks(index') == UsedBlocks(index) - {p}
  {
    TiledEntry(index, owner, p);
    var n := SizeOf(index, p);
    var index' := WithoutCounts(index, p, n)[p := Hdr(h)];
    forall q: Page ensures !(p <= q < p + n) ==> Same(index, index', q)
                   ensures p < q < p + n ==> q !in index'
    {
      WithoutCountsAt(index, p, n, q);
    }
    ChangedUse(index, index', owner, p, n);
  }

  /** A free block becomes used, with counts inside it. */
  lemma TakenTiled(index: Index, owner: map<Page, Page>, p: Page, h: Header)
    requires Tiled(index, owner) && IsFree(index, p)
    requires !h.free && Blocks(h.sz) == SizeOf(index, p)
    ensures var n := SizeOf(index, p);
            n > 0 &&
            var index' := WithCounts(index, p, n)[p := Hdr(h)];
            && Tiled(index', owner)
            && FreeSet(index', owner) == FreeSet(index, owner) - Pages(p, n)
            && Pages(p, n) <= FreeSet(index, owner)
            && UsedBlocks(index') == UsedBlocks(index)[p := h.sz]
  {
    TiledEntry(index, owner, p);
    var n := SizeOf(index, p);
    var index' := WithCounts(index, p, n)[p := Hdr(h)];
    forall q: Page ensures !(p <= q < p + n) ==> Same(index, index', q)
                   ensures p < q < p + n ==> q in index' && index'[q] == Count(Jump(q - p))
    {
      WithCountsAt(index, p, n, q);
    }
    ChangedUse(index, index', owner, p, n);
  }

  /** Turning one block from used to free, or back, moves exactly its pages. */
  lemma ChangedUse(index: Index, index': Index, owner: map<Page, Page>, p: Page, n: nat)
    requires Tiled(index, owner) && n > 0
    requires forall q: Page | !(p <= q < p + n) :: Same(index, index', q)
    requires IsHeader(index, p) && SizeOf(index, p) == n && BlockAt(index', p, n)
    requires index[p].h.free != index'[p].h.free
    ensures Tiled(index', owner)
    ensures IsFree(index', p) ==>
              && FreeSet(index', owner) == FreeSet(index, owner) + Pages(p, n)
              && FreeSet(index, owner) * Pages(p, n) == {}
              && UsedBlocks(index') == UsedBlocks(index) - {p}
    ensures IsFree(index, p) ==>
              && FreeSet(index', owner) == FreeSet(index, owner) - Pages(p, n)
              && Pages(p, n) <= FreeSet(index, owner)
              && UsedBlocks(index') == UsedBlocks(index)[p := index'[p].h.sz]
  {
    TiledEntry(index, owner, p);
    BlockWhole(index, owner, p);
    RetiledTiled(index, index', owner, p, n, n);
    assert Retiled(owner, p, n, n) == owner;
    forall q: Page ensures q in FreeSet(index', owner) <==>
                             q in owner && if p <= q < p + n then index'[p].h.free else q in FreeSet(index, owner)
    {
      if q in owner && !(p <= q < p + n) { assert Same(index, index', owner[q]); }
    }
    forall q: Page ensures q != p ==> (IsUsed(index', q) <==> IsUsed(index, q))
                   ensures q != p && IsUsed(index, q) ==> index'[q] == index[q]
    {
      if p < q < p + n {
        if IsHeader(index, q) { TiledEntry(index, owner, q); }
        if IsHeader(index', q) { TiledEntry(index', owner, q); }
      } else if q != p {
        assert Same(index, index', q);
      }
    }
  }

  /** A new section of pages becomes one free block of the heap. */
  lemma GrownTiled(index: Index, owner: map<Page, Page>, p: Page, n: nat, h: Header)
    requires Tiled(index, owner) && n > 0 && p >= 2
    requires forall q: Page | p <= q < p + n :: q !in owner
    requires h.free && h.sz == 4096 * n
    ensures var index', owner' := index[p := Hdr(h)], Retiled(owner, p, n, n);
            && Tiled(index', owner') && SizeOf(index', p) == n
            && owner'.Keys == owner.Keys + Pages(p, n) && owner.Keys * Pages(p, n) == {}
            && FreeSet(index', owner') == FreeSet(index, owner) + Pages(p, n)
            && FreeSet(index, owner) * Pages(p, n) == {}
            && UsedBlocks(index') == UsedBlocks(index)
  {
    var index', owner' := index[p := Hdr(h)], Retiled(owner, p, n, n);
    forall q | q in owner ensures p <= q < p + n <==> p <= owner[q] < p + n { TiledOwner(index, owner, q); }
    forall q: Page | p <= q < p + n ensures q !in index { assert TiledAt(index, owner, q); }
    RetiledTiled(index, index', owner, p, n, n);
    forall q: Page ensures q in FreeSet(index', owner') <==> q in FreeSet(index, owner) || p <= q < p + n {
    }
  }

  // ---- Adjacency ----

  /** At most one block ends where another begins. */
  lemma EndsOnce(index: Index, owner: map<Page, Page>, x: Page, y: Page)
    requires Tiled(index, owner) && IsHeader(index, x) && IsHeader(index, y)
    requires x + SizeOf(index, x) == y + SizeOf(index, y)
    ensures x == y
  {
    TiledEntry(index, owner, x);
    TiledEntry(index, owner, y);
    CoveredOwned(index, owner, x, x + SizeOf(index, x) - 1);
    CoveredOwned(index, owner, y, y + SizeOf(index, y) - 1);
  }

  lemma MergedApart(index: Index, owner: map<Page, Page>, p: Page, h: Header, loose: set<Page>)
    requires Tiled(index, owner) && IsFree(index, p) && IsFree(index, p + SizeOf(index, p))
    requires h.free && h.sz == index[p].h.sz + index[p + SizeOf(index, p)].h.sz
    requires NoAdjacent(index, loose) && p + SizeOf(index, p) !in loose
    ensures NoAdjacent((index - {p + SizeOf(index, p)})[p := Hdr(h)], loose - {p})
  {
    var next := p + SizeOf(index, p);
    var index' := (index - {next})[p := Hdr(h)];
    TiledEntry(index, owner, p);
    TiledEntry(index, owner, next);
    forall x: Page ensures ApartAt(index', loose - {p}, x) {
      assert ApartAt(index, loose, x) && ApartAt(index, loose, next);
      if x != p && IsFree(index', x) && x + SizeOf(index, x) == next { EndsOnce(index, owner, x, p); }
    }
  }

  lemma SplitApart(index: Index, owner: map<Page, Page>, p: Page, k: nat, h: Header, rest: Header, loose: set<Page>)
    requires Tiled(index, owner) && IsFree(index, p) && 0 < k < SizeOf(index, p)
    requires h.sz == 4096 * k && rest.sz == index[p].h.sz - 4096 * k
    requires NoAdjacent(index, loose) && p !in loose
    ensures NoAdjacent(index[p := Hdr(h)][p + k := Hdr(rest)], loose + {p})
  {
    var index' := index[p := Hdr(h)][p + k := Hdr(rest)];
    TiledEntry(index, owner, p);
    CoveredOwned(index, owner, p, p + k);
    forall x: Page ensures ApartAt(index', loose + {p}, x) {
      assert ApartAt(index, loose, x) && ApartAt(index, loose, p);
      if IsFree(index', x) && x != p && x != p + k && x + SizeOf(index, x) == p + k {
        TiledEntry(index, owner, x);
        CoveredOwned(index, owner, x, p + k - 1);
        CoveredOwned(index, owner, p, p + k - 1);
      }
    }
  }

  /** A block that becomes used, or a new or used one that becomes free. */
  lemma ChangedApart(index: Index, index': Index, owner: map<Page, Page>, owner': map<Page, Page>, p: Page, n: nat,
                     loose: set<Page>, prev: Page)
    requires Tiled(index, owner) && Tiled(index', owner') && n > 0
    requires forall q: Page | !(p <= q < p + n) :: Same(index, index', q)
    requires IsHeader(index', p) && SizeOf(index', p) == n
    requires NoAdjacent(index, loose)
    requires forall x: Page | IsFree(index', x) && x + SizeOf(index', x) == p :: x == prev
    ensures NoAdjacent(index', loose + {p, prev})
  {
    forall x: Page ensures ApartAt(index', loose + {p, prev}, x) {
      assert ApartAt(index, loose, x);
      if IsFree(index', x) && x != p {
        TiledEntry(index', owner', x);
        if p < x < p + n { CoveredOwned(index', owner', p, x); }
        var f := x + SizeOf(index', x);
        assert Same(index, index', x);
        if p < f < p + n {
          CoveredOwned(index', owner', x, f - 1);
          CoveredOwned(index', owner', p, f - 1);
        } else if f != p {
          assert Same(index, index', f);
        }
      }
    }
  }

  /** A loose block that is not free, or whose successor is not, need not be loose. */
  lemma Tighten(index: Index, loose: set<Page>, loose': set<Page>)
    requires NoAdjacent(index, loose)
    requires forall x | x in loose && x !in loose' && IsFree(index, x) :: !IsFree(index, x + SizeOf(index, x))
    ensures NoAdjacent(index, loose')
  {
    forall x: Page ensures ApartAt(index, loose', x) { assert ApartAt(index, loose, x); }
  }

  /** A block that becomes used makes nothing adjacent. */
  lemma UsedApart(index: Index, index': Index, loose: set<Page>)
    requires NoAdjacent(index, loose)
    requires forall x: Page | IsFree(index', x) :: IsFree(index, x) && SizeOf(index', x) == SizeOf(index, x)
    ensures NoAdjacent(index', loose)
  {
    forall x: Page ensures ApartAt(index', loose, x) { assert ApartAt(index, loose, x); }
  }

  // ---- Dropping a block ----

  /** The pages of a block become used blocks of one page each. */
  ghost function Crumbled(owner: map<Page, Page>, p: Page, n: nat): map<Page, Page> {
    map q | q in owner :: if p <= q < p + n then q else owner[q]
  }

  ghost function OnePageBlocks(pages: set<Page>): map<Page, nat> {
    map q | q in pages :: 4096
  }

  /** Page `q` after the block of `n` pages at `p` is dropped. */
  ghost predicate CrumbAt(index: Index, index': Index, p: Page, n: nat, q: Page) {
    if p <= q < p + n then IsUsed(index', q) && index'[q].h.sz == 4096 else Same(index, index', q)
  }

  lemma CrumbledTiled(index: Index, index': Index, owner: map<Page, Page>, p: Page)
    requires Tiled(index, owner) && IsFree(index, p)
    requires forall q: Page :: CrumbAt(index, index', p, SizeOf(index, p), q)
    ensures Tiled(index', Crumbled(owner, p, SizeOf(index, p))) &&
              Crumbled(owner, p, SizeOf(index, p)).Keys == owner.Keys
  {
    var n := SizeOf(index, p);
    var owner' := Crumbled(owner, p, n);
    TiledEntry(index, owner, p);
    BlockWhole(index, owner, p);
    forall q: Page ensures TiledAt(index', owner', q) {
      assert TiledAt(index, owner, q) && CrumbAt(index, index', p, n, q);
      if q in owner { assert CrumbAt(index, index', p, n, owner[q]); }
    }
    forall b: Page, q: Page ensures CoverRight(index', owner', b, q) {
      assert CrumbAt(index, index', p, n, b) && CoverRight(index, owner, b, q);
    }
  }

  lemma CrumbledBlocks(index: Index, index': Index, owner: map<Page, Page>, p: Page)
    requires Tiled(index, owner) && IsFree(index, p)
    requires forall q: Page :: CrumbAt(index, index', p, SizeOf(index, p), q)
    ensures var pages, owner' := Pages(p, SizeOf(index, p)), Crumbled(owner, p, SizeOf(index, p));
            && pages <= FreeSet(index, owner) && FreeSet(index', owner') == FreeSet(index, owner) - pages
            && UsedBlocks(index') == UsedBlocks(index) + OnePageBlocks(pages) && p in pages
  {
    var n := SizeOf(index, p);
    var owner' := Crumbled(owner, p, n);
    TiledEntry(index, owner, p);
    BlockWhole(index, owner, p);
    forall q: Page ensures q in FreeSet(index', owner') <==> q in FreeSet(index, owner) && !(p <= q < p + n) {
      assert CrumbAt(index, index', p, n, q);
      if q in owner { assert CrumbAt(index, index', p, n, owner[q]); }
    }
    forall q: Page ensures IsUsed(index', q) <==> IsUsed(index, q) || p <= q < p + n
                   ensures IsUsed(index', q) ==> index'[q].h.sz == if p <= q < p + n then 4096 else index[q].h.sz
    {
      assert CrumbAt(index, index', p, n, q);
      if p <= q < p + n && IsHeader(index, q) { TiledEntry(index, owner, q); }
    }
    var m, m' := UsedBlocks(index'), UsedBlocks(index) + OnePageBlocks(Pages(p, n));
    forall q: Page ensures q in m <==> q in m' {
      assert q in OnePageBlocks(Pages(p, n)) <==> p <= q < p + n;
      assert q in m <==> IsUsed(index', q);
    }
    MapsEqual(m, m');
  }

  lemma MapsEqual(m: map<Page, nat>, m': map<Page, nat>)
    requires forall q :: q in m <==> q in m'
    requires forall q | q in m :: m[q] == m'[q]
    ensures m == m'
  {
  }

  lemma CrumbledApart(index: Index, index': Index, p: Page)
    requires NoAdjacent(index, {}) && IsFree(index, p)
    requires forall q: Page :: CrumbAt(index, index', p, SizeOf(index, p), q)
    ensures NoAdjacent(index', {})
  {
    forall x: Page | IsFree(index', x) ensures IsFree(index, x) && SizeOf(index', x) == SizeOf(index, x) {
      assert CrumbAt(index, index', p, SizeOf(index, p), x);
    }
    UsedApart(index, index', {});
  }
}
