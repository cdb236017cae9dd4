/** The heap block allocator (src/gc-7.2/allchblk.c, src/gc-7.2/alloc.c:1042-1090), without
    USE_MUNMAP and with header allocation that succeeds. */
module HeapBlocks {
  import opened HeaderIndex
  import opened FreeLists
  import opened Tiling
  import opened BlackLists

  const FL_UNKNOWN := -1

  /** What a step of the search does. */
  datatype Step = Found | Next | Dropped

  /** An allocation request: the object size in bytes, the kind, and the IGNORE_OFF_PAGE flag. */
  datatype Request = Request(sz: nat, pointerFree: bool, uncollectable: bool, ignoreOffPage: bool) {

    function Needed(): nat {
      Blocks(sz)
    }

    /** Small pointer-free blocks and uncollectable ones may start on black-listed pages. */
    predicate AvoidsBlackLists() {
      !uncollectable && (!pointerFree || Needed() > 2)
    }

    /** The pages that must not be black listed. */
    function Checked(): nat {
      if ignoreOffPage then 1 else Needed()
    }
  }

  class HeapBlocks {
    const table: HeaderTable
    const black: BlackLists
    var heads: seq<Page>
    var freeBytes: seq<nat>
    var largeFreeBytes: nat
    var heapSize: nat
    var sections: seq<(Page, nat)>
    var dropCount: nat
    ghost var owner: map<Page, Page>
    ghost var lists: seq<seq<Page>>

    constructor (black: BlackLists)
      ensures Valid() && fresh(table) && this.black == black
      ensures owner == map[] && UsedBlocks(table.index) == map[]
    {
      this.black := black;
      table := new HeaderTable();
      heads := seq(N_LISTS, _ => 0);
      freeBytes := seq(N_LISTS, _ => 0);
      largeFreeBytes, heapSize, sections, dropCount := 0, 0, [], 0;
      owner, lists := map[], seq(N_LISTS, _ => []);
      new;
      ZeroSum(freeBytes);
      assert FreeSet(table.index, owner) == {};
    }

    /** The free lists are right, but for the blocks in `away` and the block `e` on list `n`. */
    ghost predicate Listed(e: Page, n: nat, away: set<Page>)
      reads this`heads, this`freeBytes, this`lists, table
    {
      table.Indexed() && ListsOk(table.index, heads, freeBytes, lists, e, n, away)
    }

    ghost function Free(): set<Page>
      reads this`owner, table
    {
      FreeSet(table.index, owner)
    }

    ghost function Used(): map<Page, nat>
      reads table
    {
      UsedBlocks(table.index)
    }

    /** The byte counts: the free lists add up to the free bytes, and those are the pages of the free
        blocks; the heap is the pages of its sections. */
    ghost predicate Counted()
      reads this, table
    {
      && Sum(freeBytes) == largeFreeBytes == 4096 * |Free()|
      && heapSize == 4096 * |owner.Keys|
    }

    /** What holds between any two calls. */
    ghost predicate Valid()
      reads this, table
    {
      && Listed(0, 0, {})
      && Tiled(table.index, owner)
      && NoAdjacent(table.index, {})
      && Counted()
    }

    /** `GC_remove_from_fl`; the position of the block on its list is `k`. */
    method RemoveFromFl(p: Page, n: int, ghost e: Page, ghost en: nat, ghost away: set<Page>)
      returns (ghost i: nat, ghost k: nat)
      requires Listed(e, en, away) && IsFree(table.index, p) && p !in away
      requires if n == FL_UNKNOWN then p != e else n == Home(table.index, e, en, p)
      modifies this`heads, this`freeBytes, this`lists, table`index
      ensures SameShape(old(table.index), table.index)
      ensures p in table.index && table.index[p] == old(table.index)[p]
      ensures if p == e || e == 0 then Listed(0, 0, away + {p}) else Listed(e, en, away + {p})
      ensures i < N_LISTS && i == Home(old(table.index), e, en, p) && k < |old(lists)[i]| && old(lists)[i][k] == p
      ensures lists == old(lists)[i := Without(old(lists)[i], k)]
      ensures Sum(freeBytes) + table.index[p].h.sz == old(Sum(freeBytes))
    {
      hide SameShape, ListOk, ListsOk, Unlinked, Sorted;
      var h := table.index[p].h;
      var index := if n == FL_UNKNOWN then FlFromBlocks(Blocks(h.sz)) else n;
      i, k := Position(table.index, heads, freeBytes, lists, e, en, away, p);
      RemovedOk(table.index, heads, freeBytes, lists, e, en, away, i, k);
      PrevNext(table.index, heads[i], lists[i], k);
      UnlinkedShape(table.index, heads[i], lists[i], k);
      UnlinkedSteps(table.index, p);
      assert heads[i := heads[i]] == heads;
      SumUpdate(freeBytes, i, freeBytes[i] - h.sz);
      if h.prev == 0 {
        heads := heads[index := h.next];
      } else {
        table.index := table.index[h.prev := Hdr(table.index[h.prev].h.(next := h.next))];
      }
      freeBytes := freeBytes[index := freeBytes[index] - h.sz];
      if h.next != 0 {
        table.index := table.index[h.next := Hdr(table.index[h.next].h.(prev := h.prev))];
      }
      lists := lists[i := Without(lists[i], k)];
      if p == e || e == 0 { NoException(table.index, heads, freeBytes, lists, e, en, away + {p}); }
    }

    /** `GC_add_to_fl`: the block joins the front of the list for its size. */
    method AddToFl(p: Page, ghost e: Page, ghost en: nat, ghost away: set<Page>)
      requires Listed(e, en, away) && IsHeader(table.index, p) && p != 0 && p != e
      requires table.index[p].h.free ==> p in away
      modifies this`heads, this`freeBytes, this`lists, table`index
      ensures SameShape(old(table.index)[p := Hdr(old(table.index)[p].h.(free := true))], table.index)
      ensures Listed(e, en, away - {p})
      ensures var i := FlFromBlocks(SizeOf(old(table.index), p)); lists == old(lists)[i := [p] + old(lists)[i]]
      ensures Sum(freeBytes) == old(Sum(freeBytes)) + old(table.index)[p].h.sz
    {
      hide SameShape, ListOk, Total, Linked, FlFromBlocks, Sum, At;
      var h := table.index[p].h;
      var index := FlFromBlocks(Blocks(h.sz));
      LinkedSteps(table.index, p, heads[index]);
      AddedOk(table.index, heads, freeBytes, lists, e, en, away, p);
      HeadOk(table.index, heads[index], lists[index]);
      SumUpdate(freeBytes, index, freeBytes[index] + h.sz);
      var second := heads[index];
      heads := heads[index := p];
      freeBytes := freeBytes[index := freeBytes[index] + h.sz];
      table.index := table.index[p := Hdr(h.(free := true, prev := 0, next := second))];
      if second != 0 {
        table.index := table.index[second := Hdr(table.index[second].h.(prev := p))];
      }
      lists := lists[index := [p] + lists[index]];
    }

    /** `GC_free_block_ending_at`: exactly the free predecessor of a block, if it has one. */
    method FreeBlockEndingAt(h: Page) returns (p: Page)
      requires table.Indexed() && Tiled(table.index, owner) && IsHeader(table.index, h)
      ensures p != 0 ==> IsFree(table.index, p) && p + SizeOf(table.index, p) == h
      ensures OnlyFreeBefore(table.index, h, p)
    {
      hide Tiled;
      TiledEntry(table.index, owner, h);
      p := h - 1;
      if p in table.index { TiledEntry(table.index, owner, p); }
      forall x: Page | IsFree(table.index, x) && x + SizeOf(table.index, x) == h
        ensures x < h && h - 1 in owner && owner[h - 1] == x && EntryRight(table.index, x, h - 1)
      {
        TiledEntry(table.index, owner, x);
        CoveredOwned(table.index, owner, x, h - 1);
      }
      if p in table.index {
        while table.index[p].Count?
          invariant 0 < p < h && p in table.index && p in owner && h - 1 in owner && owner[p] == owner[h - 1]
          invariant p < h - 1 ==> IsUsed(table.index, owner[h - 1])
          decreases p
        {
          CountLands(table.index, owner, p);
          p := p - table.index[p].n;
        }
        if table.index[p].h.free {
          HeaderBefore(table.index, owner, p, h);
          return p;
        }
        return 0;
      }
      p := table.PrevBlock(h - 1, owner);
      if p != 0 {
        forall x: Page | IsFree(table.index, x) && x + SizeOf(table.index, x) == h ensures x == p {
          NoHeaderInside(table.index, owner, x, p);
        }
        if table.index[p].h.free && p + Blocks(table.index[p].h.sz) == h { return p; }
      }
      return 0;
    }
  
    // ---- Freeing ----

    /** Two adjacent free blocks, both off the lists, become one. */
    method Merge(p: Page, next: Page, ghost loose: set<Page>)
      requires Listed(0, 0, {p, next}) && Tiled(table.index, owner)
      requires IsFree(table.index, p) && IsFree(table.index, next) && next == p + SizeOf(table.index, p) && p != next
      requires NoAdjacent(table.index, loose) && next !in loose
      modifies table`index, this`owner
      ensures Listed(0, 0, {p}) && Tiled(table.index, owner) && owner.Keys == old(owner).Keys
      ensures IsFree(table.index, p) && table.index[p].h.sz == old(table.index[p].h.sz + table.index[next].h.sz)
      ensures Free() == old(Free()) && Used() == old(Used())
      ensures NoAdjacent(table.index, loose - {p})
      ensures forall x: Page | x != p && x != next :: Same(old(table.index), table.index, x)
    {
      hide Tiled, ListsOk, FreeSet, UsedBlocks, NoAdjacent, Retiled, Blocks, CoverRight, Sorted;
      var h := table.index[p].h.(sz := table.index[p].h.sz + table.index[next].h.sz);
      MergedTiled(table.index, owner, p, h);
      MergedApart(table.index, owner, p, h, loose);
      ListsChanged(table.index, (table.index - {next})[p :=
        Hdr(h)], heads, freeBytes, lists, 0, 0, {p, next}, {p}, {p, next});
      ghost var n := SizeOf(table.index, p) + SizeOf(table.index, next);
      owner := Retiled(owner, p, n, n);
      table.index := table.index[p := Hdr(h)];
      table.RemoveHeader(next);
      assert table.index == (old(table.index) - {next})[p := Hdr(h)];
    }

    /** The block `p` as `GC_freehblk` finds it: a used block, or the header of a section that joins the
        heap, whose pages the index does not know yet. */
    ghost predicate Releasable(p: Page, grown: bool)
      reads this`owner, table
    {
      IsUsed(table.index, p) && SizeOf(table.index, p) > 0 &&
      if grown then
        Tiled(table.index - {p}, owner) && p >= 2 && NoAdjacent(table.index - {p}, {}) &&
        forall q: Page | p <= q < p + SizeOf(table.index, p) :: q !in owner
      else Tiled(table.index, owner) && NoAdjacent(table.index, {})
    }

    /** The first half of `GC_freehblk`: the counts go and the block is marked free. */
    method Release(p: Page, ghost grown: bool) returns (n: nat, ghost before: set<Page>, ghost used: map<Page, nat>)
      requires Listed(0, 0, {}) && Releasable(p, grown)
      modifies table`index, this`owner
      ensures n == SizeOf(old(table.index), p) && n > 0
      ensures Listed(0, 0, {p}) && Tiled(table.index, owner)
      ensures IsFree(table.index, p) && table.index[p].h.sz == 4096 * n && SizeOf(table.index, p) == n
      ensures before == if grown then FreeSet(old(table.index) - {p}, old(owner)) else old(Free())
      ensures used == if grown then UsedBlocks(old(table.index) - {p}) else old(Used())
      ensures Free() == before + Pages(p, n) && before * Pages(p, n) == {} && Used() == used - {p}
      ensures grown ==> owner.Keys == old(owner).Keys + Pages(p, n) && old(owner).Keys * Pages(p, n) == {}
      ensures !grown ==> owner == old(owner)
      ensures forall prev: Page | OnlyFreeBefore(table.index, p, prev) :: NoAdjacent(table.index, {p, prev})
    {
      hide Tiled, ListsOk, FreeSet, UsedBlocks, NoAdjacent;
      ghost var index0 := if grown then table.index - {p} else table.index;
      ghost var owner0 := owner;
      before, used := FreeSet(index0, owner), UsedBlocks(index0);
      n := Blocks(table.index[p].h.sz);
      var h := table.index[p].h.(sz := 4096 * n, free := true);
      ghost var index1 := WithoutCounts(table.index, p, n)[p := Hdr(h)];
      ReleasedEntries(table.index, index0, owner, p, n, h);
      if grown {
        assert index1 == index0[p := Hdr(h)] && used - {p} == used;
        GrownTiled(index0, owner, p, n, h);
        owner := Retiled(owner, p, n, n);
      } else {
        FreedTiled(index0, owner, p, h);
      }
      ListsChanged(table.index, index1, heads, freeBytes, lists, 0, 0, {}, {p}, Pages(p, n));
      forall prev: Page | OnlyFreeBefore(index1, p, prev) ensures NoAdjacent(index1, {p, prev}) {
        ChangedApart(index0, index1, owner0, owner, p, n, {}, prev);
        assert {} + {p, prev} == {p, prev};
      }
      table.RemoveCounts(p, n);
      table.index := table.index[p := Hdr(h)];
    }
  
    /** Coalescing: of two adjacent free blocks `listed` leaves its list and the two become one. */
    method Join(p: Page, next: Page, listed: Page, ghost other: Page, ghost loose: set<Page>)
      requires (listed == p && other == next) || (listed == next && other == p)
      requires Listed(0, 0, {other}) && Tiled(table.index, owner)
      requires IsFree(table.index, p) && IsFree(table.index, next) && next == p + SizeOf(table.index, p) && p != next
      requires NoAdjacent(table.index, loose) && next !in loose && 0 !in table.index
      modifies this`heads, this`freeBytes, this`lists, this`owner, table`index
      ensures Listed(0, 0, {p}) && Tiled(table.index, owner) && NoAdjacent(table.index, loose - {p})
      ensures owner.Keys == old(owner).Keys && Free() == old(Free()) && Used() == old(Used())
      ensures IsFree(table.index, p) && table.index[p].h.sz == old(table.index[p].h.sz + table.index[next].h.sz)
      ensures Sum(freeBytes) + old(table.index[listed].h.sz) == old(Sum(freeBytes))
      ensures forall x: Page | x != p && x != next :: SameBlock(old(table.index), table.index, x)
    {
      hide Tiled, ListsOk, FreeSet, UsedBlocks, NoAdjacent, Listed;
      ghost var i, k := RemoveFromFl(listed, FL_UNKNOWN, 0, 0, {other});
      assert {other} + {listed} == {p, next};
      ghost var removed := table.index;
      ShapeTiled(old(table.index), table.index, owner);
      ShapeAdjacent(old(table.index), table.index, loose);
      Merge(p, next, loose);
      forall x: Page | x != p && x != next ensures SameBlock(old(table.index), table.index, x) {
        assert Same(removed, table.index, x);
      }
    }

    /** The middle of `GC_freehblk`: the free block `p` is joined with its free neighbours, first the
        one after it. */
    method Coalesce(p: Page) returns (h: Page)
      requires Listed(0, 0, {p}) && Tiled(table.index, owner) && IsFree(table.index, p)
      requires forall prev: Page | OnlyFreeBefore(table.index, p, prev) :: NoAdjacent(table.index, {p, prev})
      modifies this`heads, this`freeBytes, this`lists, this`owner, table`index
      ensures Listed(0, 0, {h}) && Tiled(table.index, owner) && NoAdjacent(table.index, {}) && IsFree(table.index, h)
      ensures owner.Keys == old(owner).Keys && Free() == old(Free()) && Used() == old(Used()) && h != 0
      ensures Sum(freeBytes) + table.index[h].h.sz == old(Sum(freeBytes)) + old(table.index[p].h.sz)
    {
      hide Tiled, ListsOk, FreeSet, UsedBlocks, NoAdjacent;
      var next := p + Blocks(table.index[p].h.sz);
      var prev := FreeBlockEndingAt(p);
      NoNullHeader(table.index, owner);
      ghost var index := table.index;
      h := p;
      if IsFree(table.index, next) {
        TiledEntry(table.index, owner, next);
        FollowerNotLoose(table.index, owner, p, prev);
        Join(p, next, next, p, {p, prev});
        NoNullHeader(table.index, owner);
        Tighten(table.index, {p, prev} - {p}, {prev});
        assert prev != 0 ==> SameBlock(index, table.index, prev);
      } else {
        Tighten(table.index, {p, prev}, {prev});
      }
      if prev != 0 {
        FollowerNotLoose(index, old(owner), p, prev);
        Join(prev, p, prev, p, {prev});
        Tighten(table.index, {prev} - {prev}, {});
        h := prev;
      } else {
        Tighten(table.index, {prev}, {});
      }
    }

    /** `GC_freehblk`: the block becomes free and joins its free neighbours. */
    method Freehblk(p: Page, ghost grown: bool)
      requires Listed(0, 0, {}) && Releasable(p, grown) && Sum(freeBytes) == largeFreeBytes
      modifies this, table
      ensures Listed(0, 0, {}) && Tiled(table.index, owner) && NoAdjacent(table.index, {})
      ensures heapSize == old(heapSize) && sections == old(sections) && Sum(freeBytes) == largeFreeBytes
      ensures largeFreeBytes == old(largeFreeBytes) + 4096 * SizeOf(old(table.index), p)
      ensures grown ==>
                && Free() == FreeSet(old(table.index) - {p}, old(owner)) + Pages(p, SizeOf(old(table.index), p))
                && FreeSet(old(table.index) - {p}, old(owner)) * Pages(p, SizeOf(old(table.index), p)) == {}
                && Used() == UsedBlocks(old(table.index) - {p}) - {p}
                && owner.Keys == old(owner).Keys + Pages(p, SizeOf(old(table.index), p))
                && old(owner).Keys * Pages(p, SizeOf(old(table.index), p)) == {}
      ensures !grown ==>
                && Free() == old(Free()) + Pages(p, SizeOf(old(table.index), p))
                && old(Free()) * Pages(p, SizeOf(old(table.index), p)) == {}
                && Used() == old(Used()) - {p}
                && owner.Keys == old(owner).Keys
    {
      hide Tiled, ListsOk, FreeSet, UsedBlocks, NoAdjacent;
      ghost var before, used;
      var n;
      n, before, used := Release(p, grown);
      var h := Coalesce(p);
      largeFreeBytes := largeFreeBytes + 4096 * n;
      ghost var index := table.index;
      AddToFl(h, 0, 0, {h});
      assert {h} - {h} == {};
      SameFlag(index, h);
      ShapeTiled(index, table.index, owner);
      ShapeAdjacent(index, table.index, {});
    }
  
    /** `GC_add_to_heap`: pages that are not in the heap yet become a section of it. Pages 0 and 1 are
        left out, as the code cannot handle memory near address zero. */
    method AddToHeap(start: Page, count: nat)
      requires Valid() && count > 0 && forall q: Page | start <= q < start + count :: q !in owner
      modifies this, table
      ensures Valid() && Used() == old(Used())
      ensures var p := if start < 2 then 2 else start;
              var n := if start + count < p then 0 else start + count - p;
              && Free() == old(Free()) + Pages(p, n)
              && owner.Keys == old(owner).Keys + Pages(p, n)
              && sections == if n == 0 then old(sections) else old(sections) + [(p, n)]
    {
      hide Tiled, ListsOk, FreeSet, UsedBlocks, NoAdjacent, Valid;
      var p, n := start, count;
      while p <= 1
        invariant start <= p <= 2 + start && p + n == start + count && n > 0
        invariant p == start || p <= 2
        decreases 2 - p
      {
        p, n := p + 1, n - 1;
        if n == 0 {
          NoPages(if start < 2 then 2 else start, old(Free()), old(owner));
          return;
        }
      }
      AddSection(p, n);
    }

    method AddSection(p: Page, n: nat)
      requires Valid() && p >= 2 && n > 0 && forall q: Page | p <= q < p + n :: q !in owner
      modifies this, table
      ensures Valid() && Used() == old(Used())
      ensures Free() == old(Free()) + Pages(p, n) && owner.Keys == old(owner).Keys + Pages(p, n)
      ensures sections == old(sections) + [(p, n)]
    {
      hide Tiled, ListsOk, FreeSet, UsedBlocks, NoAdjacent, Sum, Pages, HeaderTable.Indexed, Listed, Releasable;
      ghost var before := table.index;
      EnterHeader(p, n);
      ReleaseSection(p, n, before);
      PagesCount(p, n);
      CardinalitySum(old(Free()), Pages(p, n));
      CardinalitySum(old(owner).Keys, Pages(p, n));
    }

    /** The pages of a new section become free. */
    method ReleaseSection(p: Page, n: nat, ghost before: Index)
      requires Listed(0, 0, {}) && Releasable(p, true) && Sum(freeBytes) == largeFreeBytes
      requires SizeOf(table.index, p) == n && p !in before && table.index - {p} == before
      modifies this, table
      ensures Listed(0, 0, {}) && Tiled(table.index, owner) && NoAdjacent(table.index, {})
      ensures Free() == FreeSet(before, old(owner)) + Pages(p, n) && FreeSet(before, old(owner)) * Pages(p, n) == {}
      ensures owner.Keys == old(owner).Keys + Pages(p, n) && old(owner).Keys * Pages(p, n) == {}
      ensures Used() == UsedBlocks(before) && sections == old(sections) + [(p, n)]
      ensures Sum(freeBytes) == largeFreeBytes == old(largeFreeBytes) + 4096 * n
      ensures heapSize == old(heapSize) + 4096 * n
    {
      hide Tiled, ListsOk, FreeSet, UsedBlocks, NoAdjacent, Sum, Pages, HeaderTable.Indexed, Listed, Releasable;
      sections := sections + [(p, n)];
      Freehblk(p, true);
      heapSize := heapSize + 4096 * n;
      NotUsedYet(before, p);
    }

    /** The header of a new section, before its pages are released. */
    method EnterHeader(p: Page, n: nat)
      requires Valid() && p >= 2 && n > 0 && forall q: Page | p <= q < p + n :: q !in owner
      modifies table
      ensures p !in old(table.index) && table.index - {p} == old(table.index)
      ensures Listed(0, 0, {}) && Releasable(p, true) && SizeOf(table.index, p) == n
    {
      hide Tiled, ListsOk, FreeSet, UsedBlocks, NoAdjacent, Sum, FlFromBlocks, Pages, Home, Covers;
      ghost var before := table.index;
      NewHeader(before, owner, p, n);
      table.InstallHeader(p, Header(4096 * n, false, 0, 0));
      assert table.index - {p} == before;
      forall q: Page | q !in {p} ensures Same(before, table.index, q) {}
      ListsChanged(before, table.index, heads, freeBytes, lists, 0, 0, {}, {}, {p});
    }

    // ---- Allocating ----

    /** The upper part of the listed block `p`, from page `m` on, takes its place on list `i`. */
    method Displace(p: Page, m: Page, i: nat, ghost k: nat)
      requires table.Indexed() && IsHeader(table.index, p) && m !in table.index && p < m
      requires |heads| == |freeBytes| == |lists| == N_LISTS && i < N_LISTS
      requires k < |lists[i]| && lists[i][k] == p && ListOk(table.index, heads[i], lists[i])
      requires 4096 * (m - p) <= table.index[p].h.sz && freeBytes[i] >= 4096 * (m - p)
      modifies this`heads, this`freeBytes, this`lists, table
      ensures table.Indexed() && table.index == Displaced(old(table.index), p, m, 4096 * (m - p))
      ensures heads == old(heads)[i := if k == 0 then m else old(heads)[i]]
      ensures freeBytes == old(freeBytes)[i := old(freeBytes)[i] - 4096 * (m - p)]
      ensures lists == old(lists)[i := Replaced(old(lists)[i], k, m)]
    {
      hide ListOk, Displaced;
      var h := table.index[p].h;
      var size := 4096 * (m - p);
      PrevNext(table.index, heads[i], lists[i], k);
      DisplacedSteps(table.index, p, m, size);
      assert heads[i := heads[i]] == heads;
      table.InstallHeader(m, Header(h.sz - size, true, h.prev, h.next));
      if h.prev != 0 {
        table.index := table.index[h.prev := Hdr(table.index[h.prev].h.(next := m))];
      } else {
        heads := heads[i := m];
      }
      if h.next != 0 {
        table.index := table.index[h.next := Hdr(table.index[h.next].h.(prev := m))];
      }
      freeBytes := freeBytes[i := freeBytes[i] - size];
      lists := lists[i := Replaced(lists[i], k, m)];
      table.index := table.index[p := Hdr(h.(sz := size))];
    }

    /** `GC_split_block`: page `m` inside the free block `p` becomes the start of a free block of its
        own, which takes the place of `p` on list `i`; `p` keeps its lower part. */
    method SplitBlock(p: Page, m: Page, i: nat)
      requires Listed(0, 0, {}) && Tiled(table.index, owner) && NoAdjacent(table.index, {})
      requires IsFree(table.index, p) && p < m < p + SizeOf(table.index, p)
      requires i == Home(table.index, 0, 0, p)
      modifies this`heads, this`freeBytes, this`lists, this`owner, table
      ensures Listed(m, i, {}) && Tiled(table.index, owner) && NoAdjacent(table.index, {p})
      ensures IsFree(table.index, m) && m + SizeOf(table.index, m) == p + SizeOf(old(table.index), p)
      ensures IsFree(table.index, p) && p + SizeOf(table.index, p) == m
      ensures owner.Keys == old(owner).Keys && Free() == old(Free()) && Used() == old(Used())
      ensures Sum(freeBytes) == old(Sum(freeBytes))
    {
      hide Tiled, ListsOk, ListOk, FreeSet, UsedBlocks, NoAdjacent, SameShape, Displaced, Sum;
      var size := 4096 * (m - p);
      ghost var index, n := table.index, SizeOf(table.index, p);
      ghost var j, k := Position(index, heads, freeBytes, lists, 0, 0, {}, p);
      TiledEntry(index, owner, p);
      SplitIndex(index, owner, heads[i], lists[i], k, m);
      SplitListsOk(index, heads, freeBytes, lists, i, k, m, size);
      SumUpdate(freeBytes, i, freeBytes[i] - size);
      Displace(p, m, i, k);
      owner := Retiled(owner, p, m - p, n);
      ghost var displaced := table.index;
      AddToFl(p, m, i, {p});
      assert {p} - {p} == {};
      AfterSplit(displaced, table.index, owner, p, {p});
      assert SameBlock(displaced, table.index, p) && SameBlock(displaced, table.index, m);
    }

    /** `GC_get_first_part`: the first `n` pages of the free block `p`, which is on list `i`, leave the
        free lists, and the rest goes back to the list for its size. */
    method GetFirstPart(p: Page, n: nat, i: nat, ghost e: Page, ghost loose: set<Page>)
      requires Listed(e, if e == 0 then 0 else i, {})
      requires Tiled(table.index, owner) && NoAdjacent(table.index, loose) && p !in loose
      requires IsFree(table.index, p) && 0 < n <= SizeOf(table.index, p) && p != 0
      requires e == p || (e == 0 && i == Home(table.index, 0, 0, p))
      modifies this`heads, this`freeBytes, this`lists, this`owner, table
      ensures Listed(0, 0, {p}) && IsFree(table.index, p)
      ensures Tiled(Resized(table.index, p, n), owner) && NoAdjacent(Resized(table.index, p, n), loose + {p})
      ensures owner.Keys == old(owner).Keys && FreeSet(Resized(table.index, p, n), owner) == old(Free())
      ensures UsedBlocks(Resized(table.index, p, n)) == old(Used())
      ensures Sum(freeBytes) + 4096 * n == old(Sum(freeBytes))
      ensures forall x: Page | x != p && (x < p || x >= p + SizeOf(old(table.index), p)) ::
                SameBlock(old(table.index), table.index, x)
    {
      hide Tiled, ListsOk, FreeSet, UsedBlocks, NoAdjacent, SameShape, Sum, FlFromBlocks, Retiled,
        HeaderTable.Indexed;
      ghost var index := table.index;
      var total := table.index[p].h.sz;
      TiledEntry(index, owner, p);
      ghost var j, k := RemoveFromFl(p, i, e, if e == 0 then 0 else i, {});
      assert {} + {p} == {p};
      ghost var removed := table.index;
      ShapeTiled(index, removed, owner);
      ShapeAdjacent(index, removed, loose);
      ShapeBlocks(index, removed);
      if total == 4096 * n {
        assert Resized(removed, p, n) == removed;
        Tighten(removed, loose, loose + {p});
        return;
      }
      var rest := p + n;
      var h := Header(total - 4096 * n, false, 0, 0);
      FirstPartIndex(removed, owner, p, n, loose);
      table.InstallHeader(rest, h);
      forall q: Page | q !in {rest} ensures Same(removed, table.index, q) {}
      ListsChanged(removed, table.index, heads, freeBytes, lists, 0, 0, {p}, {p}, {rest});
      ghost var installed := table.index;
      AddToFl(rest, 0, 0, {p});
      assert {p} - {rest} == {p};
      owner := Retiled(owner, p, n, SizeOf(index, p));
      FirstPartShape(removed, installed, table.index, p, n);
      OtherBlocks(index, removed, table.index, p, n);
      ghost var split: Index := removed[p := Hdr(removed[p].h.(sz := 4096 * n))][rest := Hdr(h.(free := true))];
      ShapeTiled(split, Resized(table.index, p, n), owner);
      ShapeAdjacent(split, Resized(table.index, p, n), loose + {p});
    }

    /** The end of `GC_allochblk_nth`: forwarding counts are installed and the header is set up. */
    method Allot(p: Page, sz: nat, ghost loose: set<Page>)
      requires Listed(0, 0, {p}) && IsFree(table.index, p) && Blocks(sz) > 0
      requires Tiled(Resized(table.index, p, Blocks(sz)), owner)
      requires NoAdjacent(Resized(table.index, p, Blocks(sz)), loose)
      requires forall x | x in loose && x != p && IsFree(table.index, x) :: x + SizeOf(table.index, x) == p
      requires Sum(freeBytes) + 4096 * Blocks(sz) == largeFreeBytes
      requires largeFreeBytes == 4096 * |FreeSet(Resized(table.index, p, Blocks(sz)), owner)|
      requires heapSize == 4096 * |owner.Keys|
      modifies this`largeFreeBytes, table
      ensures Valid() && Pages(p, Blocks(sz)) <= old(FreeSet(Resized(table.index, p, Blocks(sz)), owner))
      ensures Free() == old(FreeSet(Resized(table.index, p, Blocks(sz)), owner)) - Pages(p, Blocks(sz))
      ensures Used() == old(UsedBlocks(Resized(table.index, p, Blocks(sz))))[p := sz]
    {
      hide Tiled, ListsOk, FreeSet, UsedBlocks, NoAdjacent, Sum, WithCounts, Resized;
      var n := Blocks(sz);
      var h := table.index[p].h.(sz := sz, free := false);
      ghost var index := table.index;
      TakenBlock(index, owner, p, h, loose);
      TakenEntries(index, owner, p, n, h);
      ListsChanged(index, WithCounts(index, p, n)[p := Hdr(h)], heads, freeBytes, lists, 0, 0, {p}, {}, Pages(p, n));
      WithCountsAt(index, p, n, p);
      table.InstallCounts(p, n);
      table.index := table.index[p := Hdr(h)];
      largeFreeBytes := largeFreeBytes - 4096 * n;
    }
  
    /** The allocation of page `m` of the free block `h`, which is on list `i`: the pages before `m`
        stay free, and so does what is left over. */
    method AllotAt(h: Page, m: Page, sz: nat, i: nat)
      requires Valid() && IsFree(table.index, h) && i == Home(table.index, 0, 0, h) && h != 0
      requires Blocks(sz) > 0 && h <= m && m + Blocks(sz) <= h + SizeOf(table.index, h)
      modifies this, table
      ensures Valid() && owner.Keys == old(owner).Keys && Pages(m, Blocks(sz)) <= old(Free())
      ensures Free() == old(Free()) - Pages(m, Blocks(sz)) && Used() == old(Used())[m := sz]
      ensures black.spacing == old(black.spacing)
    {
      hide Tiled, ListsOk, FreeSet, UsedBlocks, NoAdjacent, Sum, Home;
      var n := Blocks(sz);
      if m != h {
        SplitBlock(h, m, i);
        ghost var split := table.index;
        GetFirstPart(m, n, i, m, {h});
        assert SameBlock(split, table.index, h);
        Allot(m, sz, {h} + {m});
      } else {
        GetFirstPart(h, n, i, 0, {});
        Allot(h, sz, {} + {h});
      }
    }
  
    /** Where a block handed out instead of `h` may start: at the first place that is not black listed,
        if one comes before `end`. */
    method FindClear(h: Page, end: Page, n: nat) returns (m: Page)
      requires h <= end && n > 0
      ensures h <= m <= end + n
      ensures m <= end ==> !black.BlackListed(m, n)
      ensures forall x: Page | h <= x < m :: black.BlackListed(x, n)
    {
      m := h;
      while m <= end
        invariant h <= m <= end + n
        invariant forall x: Page | h <= x < m :: black.BlackListed(x, n)
        decreases end + n - m
      {
        var r := black.IsBlackListed(m, n);
        if r == 0 { return; }
        m := r;
      }
    }

    /** A block all of whose places are black listed is dropped: its pages become used blocks. */
    method DropBlock(p: Page, i: nat) returns (ghost k: nat)
      requires Valid() && IsFree(table.index, p) && i == Home(table.index, 0, 0, p)
      modifies this`heads, this`freeBytes, this`lists, this`owner, this`largeFreeBytes, table
      ensures Valid() && owner.Keys == old(owner).Keys && i < N_LISTS
      ensures var pages := old(Pages(p, SizeOf(table.index, p)));
              pages <= old(Free()) && p in pages && Free() == old(Free()) - pages &&
              Used() == old(Used()) + OnePageBlocks(pages)
      ensures |old(lists)| == N_LISTS && k < |old(lists)[i]| && old(lists)[i][k] == p
      ensures lists == old(lists)[i := Without(old(lists)[i], k)]
      ensures forall b: Page | IsFree(table.index, b) ::
                b != p && IsFree(old(table.index), b) && SizeOf(table.index, b) == SizeOf(old(table.index), b)
    {
      hide Tiled, ListsOk, FreeSet, UsedBlocks, NoAdjacent, Sum, Home, FlFromBlocks, Crumbled, OnePageBlocks,
        SameShape, Pages, Without, Blocks, Sorted, Covers;
      ghost var index := table.index;
      var n := Blocks(table.index[p].h.sz);
      FreeBlockPages(index, owner, p);
      largeFreeBytes := largeFreeBytes - table.index[p].h.sz;
      ghost var j;
      ListCount(index, heads, freeBytes, lists, 0, 0, {});
      j, k := RemoveFromFl(p, i, 0, 0, {});
      ghost var removed := table.index;
      ShapeTiled(index, removed, owner);
      ShapeAdjacent(index, removed, {});
      ShapeBlocks(index, removed);
      var d := 0;
      while d < n
        invariant d <= n && table.Indexed() && IsHeader(table.index, p)
        invariant forall x: Page :: CrumbAt(removed, table.index, p, d, x)
        modifies table
      {
        ghost var before := table.index;
        if d == 0 {
          table.index := table.index[p := Hdr(table.index[p].h.(sz := 4096, free := false))];
        } else {
          table.InstallHeader(p + d, Header(4096, false, 0, 0));
        }
        d := d + 1;
        forall x: Page ensures CrumbAt(removed, table.index, p, d, x) {
          assert CrumbAt(removed, before, p, d - 1, x);
        }
      }
      CrumbledTiled(removed, table.index, owner, p);
      CrumbledBlocks(removed, table.index, owner, p);
      CrumbledApart(removed, table.index, p);
      CrumbledLists(removed, table.index, owner, p);
      assert {} + {p} == {p};
      StillFree(index, removed, table.index, p, n);
      ListsChanged(removed, table.index, heads, freeBytes, lists, 0, 0, {p}, {}, Pages(p, n));
      owner := Crumbled(owner, p, n);
    }
  
    /** Nothing keeps the request from any free place. */
    ghost predicate Clear(r: Request)
      reads black
    {
      r.AvoidsBlackLists() ==> forall h: Page, n: nat :: !black.BlackListed(h, n)
    }

    /** Does a free block of `size` pages at `b` have a place to start that the request allows? If no
        place is free of black-listed pages, a very large request is met in spite of them. */
    ghost predicate Admissible(b: Page, size: nat, r: Request)
      reads black
    {
      var n := r.Needed();
      || !r.AvoidsBlackLists()
      || (4096 * n > black.spacing && 4096 * (size - n) > black.spacing)
      || exists m: Page :: b <= m && m + n <= b + size && !black.BlackListed(m, r.Checked())
    }

    /** A place the request allows, said of single pages: its first page is on no list and, without
        IGNORE_OFF_PAGE, none of its pages is on a stack list. */
    lemma PlaceAllowed(p: Page, r: Request)
      requires r.sz > 0
      requires r.AvoidsBlackLists() && 4096 * r.Needed() <= black.spacing ==> !black.BlackListed(p, r.Checked())
      ensures !r.uncollectable && (!r.pointerFree || Blocks(r.sz) > 2) && 4096 * Blocks(r.sz) <= black.spacing ==>
                && !black.OnNormalList(p) && !black.OnStackList(p)
                && (!r.ignoreOffPage ==> forall q | q in Pages(p, Blocks(r.sz)) :: !black.OnStackList(q))
    {
    }

    /** Which free blocks are admissible, said of single pages. */
    lemma PlaceSuffices(b: Page, size: nat, r: Request, m: Page)
      requires r.sz > 0
      requires b <= m && m + Blocks(r.sz) <= b + size && !black.OnNormalList(m) && !black.OnStackList(m)
      requires r.ignoreOffPage || !black.BlackListed(m, Blocks(r.sz))
      ensures Admissible(b, size, r)
    {
      assert !black.BlackListed(m, r.Checked());
    }

    lemma NoPlace(b: Page, size: nat, r: Request)
      requires r.AvoidsBlackLists() && size >= r.Needed()
      requires forall x: Page | b <= x <= b + size - r.Needed() :: black.BlackListed(x, r.Checked())
      ensures Admissible(b, size, r) <==>
                4096 * r.Needed() > black.spacing && 4096 * (size - r.Needed()) > black.spacing
    {
      hide BlackLists.BlackListed;
    }

    lemma APlace(b: Page, size: nat, r: Request, m: Page)
      requires b <= m && m + r.Needed() <= b + size && !black.BlackListed(m, r.Checked())
      ensures Admissible(b, size, r)
    {
    }

    /** A block whose pages are not black listed. */
    lemma ClearStart(b: Page, size: nat, r: Request)
      requires size >= r.Needed() > 0 && !black.BlackListed(b, r.Needed())
      ensures Admissible(b, size, r)
    {
      assert !black.BlackListed(b, r.Checked());
    }

    /** `fit` has the free blocks that are admissible. */
    ghost predicate Fits(index: Index, fit: set<Page>, r: Request)
      reads black
    {
      forall b: Page | IsFree(index, b) :: b in fit <==> Admissible(b, SizeOf(index, b), r)
    }

    /** Which free blocks are fit, said of single pages. */
    lemma FitPlaces(index: Index, fit: set<Page>, r: Request)
      requires r.sz > 0 && Fits(index, fit, r)
      ensures r.uncollectable || (r.pointerFree && Blocks(r.sz) <= 2) ==>
                forall b: Page | IsFree(index, b) :: b in fit
      ensures forall b: Page, m: Page |
                && IsFree(index, b)
                && b <= m && m + Blocks(r.sz) <= b + SizeOf(index, b) && !black.BlackListed(m, Blocks(r.sz)) :: b in fit
      ensures r.ignoreOffPage ==>
                forall b: Page, m: Page |
                  && IsFree(index, b)
                  && b <= m && m + Blocks(r.sz) <= b + SizeOf(index, b)
                  && !black.OnNormalList(m) && !black.OnStackList(m) :: b in fit
    {
      forall b: Page, m: Page |
        && IsFree(index, b) && b <= m && m + Blocks(r.sz) <= b + SizeOf(index, b)
        && !black.OnNormalList(m) && !black.OnStackList(m) && (r.ignoreOffPage || !black.BlackListed(m, Blocks(r.sz)))
        ensures b in fit
      {
        PlaceSuffices(b, SizeOf(index, b), r, m);
      }
      assert forall m: Page | !black.BlackListed(m, Blocks(r.sz)) :: !black.OnNormalList(m) && !black.OnStackList(m);
    }

    /** Where in a block of `avail` pages at `h` the request is met: behind its black-listed places, or,
        for a very large request, in spite of them; `left` pages follow. A block of nothing but
        black-listed pages is dropped one time in four. */
    method ChoosePlace(r: Request, h: Page, avail: nat, findLeak: bool) returns (m: Page, left: nat, drop: bool)
      requires r.Needed() > 0 && avail >= r.Needed()
      modifies this`dropCount
      ensures left >= r.Needed() ==> h <= m && m + r.Needed() <= h + avail
      ensures left >= r.Needed() && r.AvoidsBlackLists() && 4096 * r.Needed() <= black.spacing ==>
                !black.BlackListed(m, r.Checked())
      ensures left >= r.Needed() <==> Admissible(h, avail, r)
      ensures drop ==> left < r.Needed()
      ensures Clear(r) ==> left >= r.Needed() && !drop
    {
      m, left, drop := h, avail, false;
      var n := r.Needed();
      if r.AvoidsBlackLists() {
        m := FindClear(h, h + avail - n, r.Checked());
        left := h + avail - m;
        if left < n {
          NoPlace(h, avail, r);
          assert black.BlackListed(h, r.Checked());
        } else {
          APlace(h, avail, r, m);
        }
        if left < n && 4096 * n > black.spacing && 4096 * (avail - n) > black.spacing {
          m, left := h, avail;
        } else if left == 0 && n == 1 && !findLeak {
          dropCount := dropCount + 1;
          drop := dropCount % 4 == 0;
        }
      }
    }

    /** One step of the search, at the block `h` in position `k` of list `i`: hand out a part of it,
        drop it, or go on to the next one. */
    method Visit(r: Request, h: Page, i: nat, ghost k: nat, maySplit: bool, findLeak: bool, ghost fit: set<Page>)
      returns (step: Step, p: Page, ghost pages: set<Page>)
      requires Fits(table.index, fit, r)
      requires Valid() && r.sz > 0 && i < N_LISTS && |lists| == N_LISTS && k < |lists[i]| && h == lists[i][k]
      modifies this, table
      ensures Valid() && owner.Keys == old(owner).Keys && |lists| == N_LISTS
      ensures step == Next ==> table.index == old(table.index) && lists == old(lists) && owner == old(owner)
      ensures step == Next && Wanted(old(table.index), h, r.Needed(), maySplit, fit) ==>
                maySplit && k + 1 < |lists[i]| && Wanted(table.index, lists[i][k + 1], r.Needed(), maySplit, fit)
      ensures step == Found ==>
                && p != 0 && Pages(p, r.Needed()) <= old(Free()) && Free() == old(Free()) - Pages(p, r.Needed())
                && Used() == old(Used())[p := r.sz] && Wanted(old(table.index), h, r.Needed(), maySplit, fit)
                && (r.AvoidsBlackLists() && 4096 * r.Needed() <= black.spacing ==> !black.BlackListed(p, r.Checked()))
      ensures step == Dropped ==>
                && pages <= old(Free()) && pages != {} && Free() == old(Free()) - pages
                && Used() == old(Used()) + OnePageBlocks(pages) && !Clear(r)
                && lists == old(lists)[i := Without(old(lists)[i], k)] && h !in fit && Fits(table.index, fit, r)
                && Thinned(old(table.index), old(lists), table.index, lists, fit)
    {
      hide Tiled, ListsOk, ListOk, FreeSet, UsedBlocks, NoAdjacent, Sum, Home, Clear, Admissible, Thinned, Wanted,
        Fits, Without, Pages, OnePageBlocks, BlackLists.BlackListed;
      p, pages := 0, {};
      var pass := PassOver(r, h, i, k, maySplit, fit);
      if pass { return Next, p, pages; }
      ListPosition(table.index, heads, freeBytes, lists, i, k);
      var m, left, drop := ChoosePlace(r, h, Blocks(table.index[h].h.sz), findLeak);
      WantedIs(table.index, h, r, maySplit, fit);
      if drop {
        pages := DropListed(h, i, k, r, fit);
        return Dropped, p, pages;
      }
      if left < r.Needed() { return Next, p, pages; }
      AllotAt(h, m, r.sz, i);
      ListAt(table.index, heads, freeBytes, lists, i);
      return Found, m, pages;
    }

    /** A block is passed over if it does not suit, or if the next one on the list is obviously better. */
    method PassOver(r: Request, h: Page, i: nat, ghost k: nat, maySplit: bool, ghost fit: set<Page>)
      returns (pass: bool)
      requires Valid() && r.sz > 0 && i < N_LISTS && |lists| == N_LISTS && k < |lists[i]| && h == lists[i][k]
      requires Fits(table.index, fit, r)
      ensures !pass ==> Suits(table.index, h, r.Needed(), maySplit)
      ensures pass && Wanted(table.index, h, r.Needed(), maySplit, fit) ==>
                maySplit && k + 1 < |lists[i]| && Wanted(table.index, lists[i][k + 1], r.Needed(), maySplit, fit)
    {
      hide Tiled, ListsOk, ListOk, FreeSet, UsedBlocks, NoAdjacent, Sum, Home, Admissible, BlackLists.BlackListed;
      var n := r.Needed();
      ListPosition(table.index, heads, freeBytes, lists, i, k);
      var avail := Blocks(table.index[h].h.sz);
      if avail < n || (avail != n && !maySplit) { return true; }
      var next := table.index[h].h.next;
      if avail != n && next != 0 {
        ListPosition(table.index, heads, freeBytes, lists, i, k + 1);
        var nextAvail := Blocks(table.index[next].h.sz);
        if nextAvail < avail && nextAvail >= n {
          var place := black.IsBlackListed(next, n);
          if place == 0 {
            ClearStart(next, nextAvail, r);
            return true;
          }
        }
      }
      pass := false;
    }

    lemma WantedIs(index: Index, h: Page, r: Request, maySplit: bool, fit: set<Page>)
      requires Fits(index, fit, r) && Suits(index, h, r.Needed(), maySplit)
      ensures Wanted(index, h, r.Needed(), maySplit, fit) <==> Admissible(h, Blocks(index[h].h.sz), r)
      ensures h in fit <==> Admissible(h, Blocks(index[h].h.sz), r)
    {
    }

    /** The listed block at position `k` is dropped. */
    method DropListed(h: Page, i: nat, ghost k: nat, ghost r: Request, ghost fit: set<Page>)
      returns (ghost pages: set<Page>)
      requires Valid() && i < N_LISTS && |lists| == N_LISTS && k < |lists[i]| && h == lists[i][k]
      requires Fits(table.index, fit, r) && h !in fit
      modifies this`heads, this`freeBytes, this`lists, this`owner, this`largeFreeBytes, table
      ensures Valid() && owner.Keys == old(owner).Keys && |lists| == N_LISTS
      ensures pages <= old(Free()) && pages != {} && Free() == old(Free()) - pages
      ensures Used() == old(Used()) + OnePageBlocks(pages)
      ensures lists == old(lists)[i := Without(old(lists)[i], k)] && Fits(table.index, fit, r)
      ensures Thinned(old(table.index), old(lists), table.index, lists, fit)
    {
      hide Tiled, ListsOk, FreeSet, UsedBlocks, NoAdjacent, Sum, Home, Admissible, Thinned, Without, OnePageBlocks;
      ghost var index, lists0 := table.index, lists;
      ListPosition(index, heads, freeBytes, lists, i, k);
      ghost var head := heads[i];
      pages := Pages(h, SizeOf(index, h));
      hide Pages, ListOk;
      ListsFiled(index, heads, freeBytes, lists);
      ghost var j := DropBlock(h, i);
      ListsFiled(table.index, heads, freeBytes, lists);
      assert j == k by { ListDistinct(index, head, lists0[i]); }
      DroppedThins(index, lists0, table.index, lists, i, k, fit);
    }

    /** The search loop of `GC_allochblk_nth`; `restart` says that it must start over, because the first
        block of the list was dropped. */
    method SearchList(r: Request, i: nat, maySplit: bool, findLeak: bool, ghost fit: set<Page>)
      returns (p: Page, restart: bool, ghost dropped: set<Page>, ghost free1: set<Page>, ghost used1: map<Page, nat>)
      requires Valid() && r.sz > 0 && i < N_LISTS && Fits(table.index, fit, r)
      modifies this, table
      ensures Valid() && owner.Keys == old(owner).Keys && |old(lists)| == N_LISTS
      ensures Shed(old(Free()), old(Used()), dropped, free1, used1)
      ensures p == 0 ==> Free() == free1 && Used() == used1
      ensures p != 0 ==>
                && !restart && Pages(p, r.Needed()) <= free1 && Free() == free1 - Pages(p, r.Needed())
                && Used() == used1[p := r.sz]
      ensures p != 0 && r.AvoidsBlackLists() && 4096 * r.Needed() <= black.spacing ==>
                !black.BlackListed(p, r.Checked())
      ensures p == 0 && dropped == {} ==> table.index == old(table.index) && lists == old(lists)
      ensures p == 0 ==> Fits(table.index, fit, r) && Thinned(old(table.index), old(lists), table.index, lists, fit)
      ensures restart ==> dropped != {} && !Clear(r)
      ensures Clear(r) ==> dropped == {}
      ensures !restart ==>
                (p != 0 <==> exists b :: b in old(lists)[i] && Wanted(old(table.index), b, r.Needed(), maySplit, fit))
    {
      hide Tiled, ListsOk, ListOk, FreeSet, UsedBlocks, NoAdjacent, Sum, Home, Clear, Passed, Suits, Pages, Without,
        Shed, OnePageBlocks, BlackLists.BlackListed, Counted, Thinned, Wanted, Fits, Filed;
      p, restart, dropped := 0, false, {};
      ListAt(table.index, heads, freeBytes, lists, i);
      var h := heads[i];
      ghost var k := 0;
      ghost var free, used, index0, lists0 := Free(), Used(), table.index, lists;
      NothingShed(free, used);
      NothingPassed(table.index, lists[i], r.Needed(), maySplit, fit);
      ListsFiled(table.index, heads, freeBytes, lists);
      NothingThinned(index0, lists0, fit);
      while h != 0
        invariant Valid() && owner.Keys == old(owner).Keys
        invariant Shed(free, used, dropped, Free(), Used())
        invariant dropped == {} ==> table.index == old(table.index) && lists == old(lists)
        invariant |lists| == N_LISTS && k <= |lists[i]| && h == At(lists[i], k)
        invariant Fits(table.index, fit, r) && Thinned(index0, lists0, table.index, lists, fit)
        invariant Passed(table.index, lists[i], k, r.Needed(), maySplit, fit) && (Clear(r) ==> dropped == {})
        decreases |lists[i]| - k
      {
        ListPosition(table.index, heads, freeBytes, lists, i, k);
        var next, prev := table.index[h].h.next, table.index[h].h.prev;
        free1, used1 := Free(), Used();
        ghost var index1, lists1 := table.index, lists;
        StillWanted(index0, lists0, index1, lists1, fit, i, r.Needed(), maySplit);
        var step, page;
        ghost var pages;
        step, page, pages := Visit(r, h, i, k, maySplit, findLeak, fit);
        if step == Found {
          p := page;
          return;
        }
        if step == Next {
          PassedNext(table.index, lists[i], k, r.Needed(), maySplit, fit);
          h, k := next, k + 1;
          continue;
        }
        ShedMore(free, used, dropped, free1, used1, pages);
        ThinnedMore(index0, lists0, index1, lists1, table.index, lists, fit);
        PassedDropped(index1, lists1, table.index, lists, i, k, r.Needed(), maySplit, fit);
        dropped := dropped + pages;
        if prev == 0 {
          restart := true;
          free1, used1 := Free(), Used();
          return;
        }
        h := NextOf(prev, i, k);
      }
      ListPosition(table.index, heads, freeBytes, lists, i, k);
      NoneWanted(table.index, lists[i], r.Needed(), maySplit, fit);
      StillWanted(index0, lists0, table.index, lists, fit, i, r.Needed(), maySplit);
      free1, used1 := Free(), Used();
    }

    /** `GC_allochblk_nth`: search list `i`. The result is null or a new used block; `dropped` are the
        pages given up because they are black listed. The search finds a block exactly when the list
        has one that suits and has an admissible place. */
    method AllochblkNth(r: Request, i: nat, maySplit: bool, findLeak: bool, ghost fit: set<Page>)
      returns (p: Page, ghost dropped: set<Page>)
      requires Valid() && r.sz > 0 && i < N_LISTS && Fits(table.index, fit, r)
      modifies this, table
      ensures Valid() && owner.Keys == old(owner).Keys && dropped <= old(Free())
      ensures p == 0 ==> Free() == old(Free()) - dropped && Used() == old(Used()) + OnePageBlocks(dropped)
      ensures p != 0 ==>
                && Pages(p, r.Needed()) <= old(Free()) - dropped
                && Free() == old(Free()) - dropped - Pages(p, r.Needed())
                && Used() == (old(Used()) + OnePageBlocks(dropped))[p := r.sz]
      ensures p != 0 && r.AvoidsBlackLists() && 4096 * r.Needed() <= black.spacing ==>
                !black.BlackListed(p, r.Checked())
      ensures p == 0 && dropped == {} ==> table.index == old(table.index) && lists == old(lists)
      ensures p == 0 ==> Fits(table.index, fit, r) && Thinned(old(table.index), old(lists), table.index, lists, fit)
      ensures |old(lists)| == N_LISTS
      ensures p != 0 && !r.uncollectable && (!r.pointerFree || Blocks(r.sz) > 2) &&
                4096 * Blocks(r.sz) <= black.spacing ==>
                && !black.OnNormalList(p) && !black.OnStackList(p)
                && (!r.ignoreOffPage ==> forall q | q in Pages(p, Blocks(r.sz)) :: !black.OnStackList(q))
      ensures Clear(r) ==> dropped == {}
      ensures p != 0 <==> exists b :: b in old(lists)[i] && Wanted(old(table.index), b, r.Needed(), maySplit, fit)
      decreases |Free()|, 1
    {
      hide Tiled, ListsOk, FreeSet, UsedBlocks, NoAdjacent, Sum, Clear, Suits, Pages, Shed, OnePageBlocks, Thinned,
        Wanted, Fits;
      ghost var free, used, free1, used1, index0, lists0 := Free(), Used(), {}, map[], table.index, lists;
      var restart;
      p, restart, dropped, free1, used1 := SearchList(r, i, maySplit, findLeak, fit);
      ShedIs(free, used, dropped, free1, used1);
      if restart {
        p, dropped := SearchAgain(r, i, maySplit, findLeak, free, used, dropped, fit, index0, lists0);
      }
      if p != 0 { PlaceAllowed(p, r); }
    }

    /** The block after `prev`, where the search goes on. */
    method NextOf(prev: Page, i: nat, ghost k: nat) returns (h: Page)
      requires Valid() && i < N_LISTS && |lists| == N_LISTS && 0 < k <= |lists[i]| && prev == lists[i][k - 1]
      ensures h == At(lists[i], k)
    {
      ListPosition(table.index, heads, freeBytes, lists, i, k - 1);
      h := table.index[prev].h.next;
    }

    /** The search starts over after the first block of the list is dropped. */
    method SearchAgain(r: Request, i: nat, maySplit: bool, findLeak: bool, ghost free: set<Page>,
                       ghost used: map<Page, nat>, ghost dropped: set<Page>, ghost fit: set<Page>,
                       ghost index0: Index, ghost lists0: seq<seq<Page>>)
      returns (p: Page, ghost dropped': set<Page>)
      requires Valid() && r.sz > 0 && i < N_LISTS && Shed(free, used, dropped, Free(), Used()) && dropped != {}
      requires Fits(table.index, fit, r) && Thinned(index0, lists0, table.index, lists, fit)
      modifies this, table
      ensures Valid() && owner.Keys == old(owner).Keys && dropped' <= free && dropped' != {}
      ensures p == 0 ==> Free() == free - dropped' && Used() == used + OnePageBlocks(dropped')
      ensures p != 0 ==>
                && Pages(p, r.Needed()) <= free - dropped' && Free() == free - dropped' - Pages(p, r.Needed())
                && Used() == (used + OnePageBlocks(dropped'))[p := r.sz]
      ensures p != 0 && r.AvoidsBlackLists() && 4096 * r.Needed() <= black.spacing ==>
                !black.BlackListed(p, r.Checked())
      ensures p == 0 ==> Fits(table.index, fit, r) && Thinned(index0, lists0, table.index, lists, fit)
      ensures |lists0| == N_LISTS
      ensures p != 0 <==> exists b :: b in lists0[i] && Wanted(index0, b, r.Needed(), maySplit, fit)
      decreases |free|, 0
    {
      hide Tiled, ListsOk, ListOk, FreeSet, UsedBlocks, NoAdjacent, Sum, Home, Clear, Suits, Pages, OnePageBlocks,
        Wanted, Fits;
      ghost var free1, used1, index1, lists1, more := Free(), Used(), table.index, lists, {};
      CardinalityLess(free, dropped, free1);
      p, more := AllochblkNth(r, i, maySplit, findLeak, fit);
      StillWanted(index0, lists0, index1, lists1, fit, i, r.Needed(), maySplit);
      if p == 0 { ThinnedMore(index0, lists0, index1, lists1, table.index, lists, fit); }
      ShedMore(free, used, dropped, free1, used1, more);
      dropped' := dropped + more;
    }

    /** `GC_allochblk`: an exact match first, then any block from the lists up to `splitLimit` that is
        large enough. Which limit applies depends on the state of the collector and is a parameter. The
        search fails exactly when no such block has an admissible place. */
    method Allochblk(r: Request, splitLimit: nat, findLeak: bool) returns (p: Page, ghost dropped: set<Page>)
      requires Valid() && r.sz > 0 && splitLimit < N_LISTS
      modifies this, table
      ensures Valid() && owner.Keys == old(owner).Keys && dropped <= old(Free())
      ensures p == 0 ==> Free() == old(Free()) - dropped && Used() == old(Used()) + OnePageBlocks(dropped)
      ensures p != 0 ==>
                && Pages(p, r.Needed()) <= old(Free()) - dropped
                && Free() == old(Free()) - dropped - Pages(p, r.Needed())
                && Used() == (old(Used()) + OnePageBlocks(dropped))[p := r.sz]
      ensures p != 0 && r.AvoidsBlackLists() && 4096 * r.Needed() <= black.spacing ==>
                !black.BlackListed(p, r.Checked())
      ensures Clear(r) ==> dropped == {}
      ensures p != 0 <==> exists b ::
                Reachable(old(table.index), b, r.Needed(), splitLimit) && Admissible(b, SizeOf(old(table.index), b), r)
      ensures Clear(r) ==> (p != 0 <==> exists b :: Reachable(old(table.index), b, r.Needed(), splitLimit))
      ensures p != 0 && !r.uncollectable && (!r.pointerFree || Blocks(r.sz) > 2) &&
                4096 * Blocks(r.sz) <= black.spacing ==>
                && !black.OnNormalList(p) && !black.OnStackList(p)
                && (!r.ignoreOffPage ==> forall q | q in Pages(p, Blocks(r.sz)) :: !black.OnStackList(q))
      ensures forall b: Page, m: Page |
                && Reachable(old(table.index), b, Blocks(r.sz), splitLimit)
                && b <= m && m + Blocks(r.sz) <= b + SizeOf(old(table.index), b)
                && !black.BlackListed(m, Blocks(r.sz)) :: p != 0
      ensures r.ignoreOffPage ==>
                forall b: Page, m: Page |
                  && Reachable(old(table.index), b, Blocks(r.sz), splitLimit)
                  && b <= m && m + Blocks(r.sz) <= b + SizeOf(old(table.index), b)
                  && !black.OnNormalList(m) && !black.OnStackList(m) :: p != 0
      ensures r.uncollectable || (r.pointerFree && Blocks(r.sz) <= 2) ==>
                (p != 0 <==> exists b :: Reachable(old(table.index), b, Blocks(r.sz), splitLimit))
    {
      hide Tiled, ListsOk, FreeSet, UsedBlocks, NoAdjacent, Sum, Clear, Suits, Reachable, Pages, OnePageBlocks, Shed,
        Searched, Filed, Used, Admissible, Fits, BlackLists.BlackListed, BlackLists.OnStackList,
        BlackLists.OnNormalList;
      ghost var index, fit := table.index, {};
      fit := FitBlocks(r);
      p, dropped := SearchLists(r, splitLimit, findLeak, fit);
      if p != 0 { PlaceAllowed(p, r); }
      PlacesFound(index, r, splitLimit, fit, p);
    }

    lemma PlacesFound(index: Index, r: Request, splitLimit: nat, fit: set<Page>, p: Page)
      requires r.sz > 0 && Fits(index, fit, r)
      requires p != 0 <==> exists b :: Reachable(index, b, r.Needed(), splitLimit) && b in fit
      ensures p != 0 <==> exists b :: Reachable(index, b, r.Needed(), splitLimit) && Admissible(b, SizeOf(index, b), r)
      ensures Clear(r) ==> (p != 0 <==> exists b :: Reachable(index, b, r.Needed(), splitLimit))
      ensures forall b: Page, m: Page |
                && Reachable(index, b, Blocks(r.sz), splitLimit)
                && b <= m && m + Blocks(r.sz) <= b + SizeOf(index, b) && !black.BlackListed(m, Blocks(r.sz)) :: p != 0
      ensures r.ignoreOffPage ==>
                forall b: Page, m: Page |
                  && Reachable(index, b, Blocks(r.sz), splitLimit)
                  && b <= m && m + Blocks(r.sz) <= b + SizeOf(index, b)
                  && !black.OnNormalList(m) && !black.OnStackList(m) :: p != 0
      ensures r.uncollectable || (r.pointerFree && Blocks(r.sz) <= 2) ==>
                (p != 0 <==> exists b :: Reachable(index, b, Blocks(r.sz), splitLimit))
    {
      hide Fits, Pages, Clear, Admissible, BlackLists.BlackListed, BlackLists.OnStackList, BlackLists.OnNormalList;
      FitReachable(index, r, splitLimit, fit);
      FitPlaces(index, fit, r);
    }

    /** The free blocks with an admissible place. */
    ghost method FitBlocks(r: Request) returns (fit: set<Page>)
      requires Valid()
      ensures Fits(table.index, fit, r)
    {
      hide ListsOk, NoAdjacent, Admissible;
      fit := set b | b in owner.Keys && IsFree(table.index, b) && Admissible(b, SizeOf(table.index, b), r);
      forall b: Page | IsFree(table.index, b) ensures b in owner {
        assert TiledAt(table.index, owner, b);
        TiledEntry(table.index, owner, b);
      }
    }

    lemma FitReachable(index: Index, r: Request, splitLimit: nat, fit: set<Page>)
      requires r.sz > 0 && Fits(index, fit, r)
      ensures forall b :: Reachable(index, b, r.Needed(), splitLimit) ==>
                (b in fit <==> Admissible(b, SizeOf(index, b), r)) && (Clear(r) ==> b in fit)
    {
      forall b | Reachable(index, b, r.Needed(), splitLimit)
        ensures (b in fit <==> Admissible(b, SizeOf(index, b), r)) && (Clear(r) ==> b in fit)
      {
        assert IsFree(index, b) && SizeOf(index, b) >= r.Needed();
        if Clear(r) { ClearAdmits(b, SizeOf(index, b), r); }
      }
    }

    lemma ClearAdmits(b: Page, size: nat, r: Request)
      requires Clear(r) && size >= r.Needed()
      ensures Admissible(b, size, r)
    {
      if r.AvoidsBlackLists() { assert !black.BlackListed(b, r.Checked()); }
    }

    /** The searches of `GC_allochblk`. */
    method SearchLists(r: Request, splitLimit: nat, findLeak: bool, ghost fit: set<Page>)
      returns (p: Page, ghost dropped: set<Page>)
      requires Valid() && r.sz > 0 && splitLimit < N_LISTS && Fits(table.index, fit, r)
      modifies this, table
      ensures Valid() && owner.Keys == old(owner).Keys && dropped <= old(Free())
      ensures p == 0 ==> Free() == old(Free()) - dropped && Used() == old(Used()) + OnePageBlocks(dropped)
      ensures p != 0 ==>
                && Pages(p, r.Needed()) <= old(Free()) - dropped
                && Free() == old(Free()) - dropped - Pages(p, r.Needed())
                && Used() == (old(Used()) + OnePageBlocks(dropped))[p := r.sz]
      ensures p != 0 && r.AvoidsBlackLists() && 4096 * r.Needed() <= black.spacing ==>
                !black.BlackListed(p, r.Checked())
      ensures Clear(r) ==> dropped == {}
      ensures p != 0 <==> exists b :: Reachable(old(table.index), b, r.Needed(), splitLimit) && b in fit
    {
      hide Tiled, ListsOk, FreeSet, UsedBlocks, NoAdjacent, Sum, Clear, Suits, Reachable, Pages, OnePageBlocks, Shed,
        Searched, Filed, Used, Thinned, Wanted, Fits, Counted, FlFromBlocks, BlackLists.BlackListed;
      ghost var free, used, index, lists0 := Free(), Used(), table.index, lists;
      var n := r.Needed();
      var start := FlFromBlocks(n);
      NothingShed(free, used);
      ListsFiled(index, heads, freeBytes, lists);
      p, dropped := AllochblkNth(r, start, false, findLeak, fit);
      if p != 0 {
        FoundReachable(index, lists0, start, n, false, splitLimit, fit);
        return;
      }
      ShedMore(free, used, {}, free, used, dropped);
      assert {} + dropped == dropped;
      var i := if start < 32 then start + 1 else start;
      ghost var first := i;
      NothingSearched(index, lists0, i, n, fit);
      while i <= splitLimit
        invariant first <= i && Valid() && owner.Keys == old(owner).Keys
        invariant Shed(free, used, dropped, Free(), Used())
        invariant Fits(table.index, fit, r) && Thinned(index, lists0, table.index, lists, fit)
        invariant (Clear(r) ==> dropped == {}) && Searched(index, lists0, first, i, n, fit)
        decreases splitLimit + 1 - i
      {
        p, dropped := SearchFurther(r, i, findLeak, fit, free, used, dropped, index, lists0);
        if p != 0 {
          FoundReachable(index, lists0, i, n, true, splitLimit, fit);
          return;
        }
        SearchedNext(index, lists0, first, i, n, fit);
        i := i + 1;
      }
      ShedIs(free, used, dropped, Free(), Used());
      NoneReachable(index, lists0, first, n, splitLimit, i, fit);
      return 0, dropped;
    }

    /** The search of one of the later lists. `free`, `used`, `index0` and `lists0` are from before the first. */
    method SearchFurther(r: Request, i: nat, findLeak: bool, ghost fit: set<Page>, ghost free: set<Page>,
                         ghost used: map<Page, nat>, ghost before: set<Page>,
                         ghost index0: Index, ghost lists0: seq<seq<Page>>)
      returns (p: Page, ghost dropped: set<Page>)
      requires Valid() && r.sz > 0 && i < N_LISTS && Shed(free, used, before, Free(), Used())
      requires Fits(table.index, fit, r) && Thinned(index0, lists0, table.index, lists, fit)
      modifies this, table
      ensures Valid() && owner.Keys == old(owner).Keys && |lists0| == N_LISTS
      ensures p == 0 ==> Shed(free, used, dropped, Free(), Used())
      ensures p == 0 ==> Fits(table.index, fit, r) && Thinned(index0, lists0, table.index, lists, fit)
      ensures p != 0 ==>
                && dropped <= free && Pages(p, r.Needed()) <= free - dropped
                && Free() == free - dropped - Pages(p, r.Needed())
                && Used() == (used + OnePageBlocks(dropped))[p := r.sz]
      ensures p != 0 && r.AvoidsBlackLists() && 4096 * r.Needed() <= black.spacing ==>
                !black.BlackListed(p, r.Checked())
      ensures Clear(r) ==> dropped == before
      ensures p != 0 <==> exists b :: b in lists0[i] && Wanted(index0, b, r.Needed(), true, fit)
    {
      hide Tiled, ListsOk, FreeSet, UsedBlocks, NoAdjacent, Sum, Clear, Pages, OnePageBlocks, Shed, Wanted, Fits;
      ghost var free1, used1, index1, lists1, more := Free(), Used(), table.index, lists, {};
      ListAt(table.index, heads, freeBytes, lists, i);
      StillWanted(index0, lists0, index1, lists1, fit, i, r.Needed(), true);
      p, more := AllochblkNth(r, i, true, findLeak, fit);
      dropped := before + more;
      ShedMore(free, used, before, free1, used1, more);
      if p != 0 {
        ShedFound(free, used, before, free1, used1, more, Pages(p, r.Needed()));
      } else {
        ThinnedMore(index0, lists0, index1, lists1, table.index, lists, fit);
      }
    }

    /** `GC_freehblk` for a used block, between two calls: what is freed becomes free, and nothing else. */
    method FreeBlock(p: Page)
      requires Valid() && IsUsed(table.index, p)
      modifies this, table
      ensures Valid() && owner.Keys == old(owner).Keys && heapSize == old(heapSize)
      ensures Free() == old(Free()) + Pages(p, SizeOf(old(table.index), p))
      ensures old(Free()) * Pages(p, SizeOf(old(table.index), p)) == {}
      ensures Used() == old(Used()) - {p}
    {
      hide ListsOk, FreeSet, UsedBlocks, NoAdjacent, Sum;
      assert SizeOf(table.index, p) > 0 by { assert TiledAt(table.index, owner, p); }
      hide Tiled;
      PagesCount(p, SizeOf(table.index, p));
      Freehblk(p, false);
      CardinalitySum(old(Free()), Pages(p, SizeOf(old(table.index), p)));
    }

    /** Any run of allocations, releases and additions to the heap keeps everything that holds between
        two calls. A release of a page that starts no used block and a request for nothing are not
        calls; the sections added must not overlap. */
    method Run(ops: seq<HeapOp>)
      requires Valid() && Apart(ops, owner.Keys)
      modifies this, table
      ensures Valid() && owner.Keys == Grown(ops, old(owner).Keys)
      decreases |ops|
    {
      hide Listed, Counted, Tiled, NoAdjacent, Pages;
      if ops == [] { return; }
      match ops[0] {
        case AllocOp(r, splitLimit, findLeak) =>
          if r.sz > 0 && splitLimit < N_LISTS { var _, _ := Allochblk(r, splitLimit, findLeak); }
        case FreeOp(p) =>
          if IsUsed(table.index, p) { FreeBlock(p); }
        case GrowOp(start, count) =>
          if count > 0 { AddToHeap(start, count); }
          NewPages(start, count, old(owner).Keys);
      }
      assert owner.Keys == if ops[0].GrowOp? then old(owner).Keys + NewSection(ops[0].start, ops[0].count)
                           else old(owner).Keys;
      Run(ops[1..]);
    }

    /** `GC_check_blocks`: what the used blocks take up, in bytes. */
    method BytesInUsedBlocks() returns (bytes: nat)
      requires Valid()
      ensures bytes + largeFreeBytes == heapSize
    {
      hide Tiled, ListsOk, FreeSet, UsedBlocks, NoAdjacent, Sum, UsedPages;
      var visited := table.ApplyToAllBlocks(owner);
      bytes := 0;
      var i := 0;
      NoUsedPages(table.index, visited);
      while i < |visited|
        invariant i <= |visited| && bytes == 4096 * |UsedPages(table.index, visited[..i])|
      {
        AddUsedPages(table.index, owner, visited, i);
        bytes := bytes + 4096 * Blocks(table.index[visited[i]].h.sz);
        i := i + 1;
      }
      assert visited[..i] == visited;
      AllUsedPages(table.index, owner, visited);
    }
  }

  // ---- Runs ----

  datatype HeapOp =
    | AllocOp(r: Request, splitLimit: nat, findLeak: bool)
    | FreeOp(p: Page)
    | GrowOp(start: Page, count: nat)

  /** The pages a section brings: all but pages 0 and 1. */
  function NewSection(start: Page, count: nat): set<Page> {
    if start + count <= 2 then {}
    else Pages(if start < 2 then 2 else start, start + count - if start < 2 then 2 else start)
  }

  /** The pages of the heap after a run. */
  function Grown(ops: seq<HeapOp>, heap: set<Page>): set<Page> {
    if ops == [] then heap
    else Grown(ops[1..], if ops[0].GrowOp? then heap + NewSection(ops[0].start, ops[0].count) else heap)
  }

  /** The sections that a run adds do not overlap the heap they are added to. */
  predicate Apart(ops: seq<HeapOp>, heap: set<Page>) {
    ops == [] ||
    ((ops[0].GrowOp? ==> Pages(ops[0].start, ops[0].count) !! heap) &&
     Apart(ops[1..], if ops[0].GrowOp? then heap + NewSection(ops[0].start, ops[0].count) else heap))
  }

  lemma NewPages(start: Page, count: nat, heap: set<Page>)
    ensures var p := if start < 2 then 2 else start;
            NewSection(start, count) == Pages(p, if start + count < p then 0 else start + count - p)
    ensures count == 0 ==> NewSection(start, count) == {}
  {
    var p := if start < 2 then 2 else start;
    if start + count <= p { assert Pages(p, 0) == {}; }
  }

  // ---- Completeness of the search ----

  /** A free block that the search takes: of the right size, or large enough and on a list that may be
      split. */
  predicate Reachable(index: Index, b: Page, n: nat, splitLimit: nat) {
    IsFree(index, b) &&
    (SizeOf(index, b) == n || (SizeOf(index, b) >= n && FlFromBlocks(SizeOf(index, b)) <= splitLimit))
  }

  /** Every free block is on the list for its size, and nothing else is on a list. */
  ghost predicate Filed(index: Index, lists: seq<seq<Page>>) {
    && |lists| == N_LISTS
    && (forall i: nat, b | i < N_LISTS && b in lists[i] :: IsFree(index, b) && FlFromBlocks(SizeOf(index, b)) == i)
    && (forall b: Page | IsFree(index, b) :: b in lists[FlFromBlocks(SizeOf(index, b))])
  }

  lemma ListsFiled(index: Index, heads: seq<Page>, bytes: seq<nat>, lists: seq<seq<Page>>)
    requires ListsOk(index, heads, bytes, lists, 0, 0, {})
    ensures Filed(index, lists)
  {
    forall i: nat, b | i < N_LISTS && b in lists[i] ensures IsFree(index, b) && FlFromBlocks(SizeOf(index, b)) == i {
      FreeLists.Listed(index, heads[i], lists[i], b);
      assert Home(index, 0, 0, b) == i;
    }
    forall b: Page | IsFree(index, b) ensures b in lists[FlFromBlocks(SizeOf(index, b))] {
      assert b in lists[Home(index, 0, 0, b)];
    }
  }

  lemma FoundReachable(index: Index, lists: seq<seq<Page>>, i: nat, n: nat, maySplit: bool, splitLimit: nat,
                       fit: set<Page>)
    requires Filed(index, lists) && i < N_LISTS && (maySplit ==> i <= splitLimit)
    requires exists b :: b in lists[i] && Wanted(index, b, n, maySplit, fit)
    ensures exists b :: Reachable(index, b, n, splitLimit) && b in fit
  {
    var b :| b in lists[i] && Wanted(index, b, n, maySplit, fit);
    assert Reachable(index, b, n, splitLimit) && b in fit;
  }

  /** The lists `first .. i` have no block of at least `n` pages that is fit. */
  ghost predicate Searched(index: Index, lists: seq<seq<Page>>, first: nat, i: nat, n: nat, fit: set<Page>) {
    forall j: nat, b | first <= j < i && j < |lists| && b in lists[j] :: !Wanted(index, b, n, true, fit)
  }

  lemma NothingSearched(index: Index, lists: seq<seq<Page>>, i: nat, n: nat, fit: set<Page>)
    ensures Searched(index, lists, i, i, n, fit)
  {
  }

  lemma SearchedNext(index: Index, lists: seq<seq<Page>>, first: nat, i: nat, n: nat, fit: set<Page>)
    requires Searched(index, lists, first, i, n, fit) && i < |lists|
    requires !exists b :: b in lists[i] && Wanted(index, b, n, true, fit)
    ensures Searched(index, lists, first, i + 1, n, fit)
  {
  }

  /** List indices grow with sizes, and below 32 pages every size has its own list, so the lists
      searched hold every block there is to find. */
  lemma NoneReachable(index: Index, lists: seq<seq<Page>>, first: nat, n: nat, splitLimit: nat, i: nat,
                      fit: set<Page>)
    requires Filed(index, lists) && i > splitLimit && Searched(index, lists, first, i, n, fit) && splitLimit < N_LISTS
    requires !exists b :: b in lists[FlFromBlocks(n)] && Wanted(index, b, n, false, fit)
    requires first == if FlFromBlocks(n) < 32 then FlFromBlocks(n) + 1 else FlFromBlocks(n)
    ensures !exists b :: Reachable(index, b, n, splitLimit) && b in fit
  {
    forall b: Page ensures !(Reachable(index, b, n, splitLimit) && b in fit) {
      if Reachable(index, b, n, splitLimit) && b in fit {
        var size := SizeOf(index, b);
        FlMonotone(n, size);
        assert b in lists[FlFromBlocks(size)];
        if size == n { assert Wanted(index, b, n, false, fit); } else { assert Wanted(index, b, n, true, fit); }
      }
    }
  }

  lemma ShedFound(free: set<Page>, used: map<Page, nat>, dropped: set<Page>, free1: set<Page>, used1: map<Page, nat>,
                  more: set<Page>, pages: set<Page>)
    requires Shed(free, used, dropped, free1, used1) && more <= free1 && pages <= free1 - more
    ensures dropped + more <= free && pages <= free - (dropped + more)
    ensures free1 - more - pages == free - (dropped + more) - pages
    ensures used1 + OnePageBlocks(more) == used + OnePageBlocks(dropped + more)
  {
  }

  // ---- Used and free bytes ----

  ghost function UsedPages(index: Index, visited: seq<Page>): set<Page> {
    set b, q | b in visited && IsHeader(index, b) && q in Pages(b, SizeOf(index, b)) :: q
  }

  lemma NoUsedPages(index: Index, visited: seq<Page>)
    ensures |UsedPages(index, visited[..0])| == 0
  {
    assert UsedPages(index, visited[..0]) == {};
  }

  lemma AddUsedPages(index: Index, owner: map<Page, Page>, visited: seq<Page>, i: nat)
    requires Tiled(index, owner) && i < |visited| && IsUsed(index, visited[i])
    requires forall j, k | 0 <= j < k < |visited| :: visited[j] != visited[k]
    ensures |UsedPages(index, visited[..i + 1])| == |UsedPages(index, visited[..i])| + SizeOf(index, visited[i])
  {
    var b := visited[i];
    var before, pages := UsedPages(index, visited[..i]), Pages(b, SizeOf(index, b));
    assert visited[..i + 1] == visited[..i] + [b];
    assert UsedPages(index, visited[..i + 1]) == before + pages;
    forall q | q in before ensures q !in pages {
      var a :| a in visited[..i] && IsHeader(index, a) && q in Pages(a, SizeOf(index, a));
      CoveredOwned(index, owner, a, q);
      if q in pages { CoveredOwned(index, owner, b, q); }
    }
    CardinalitySum(before, pages);
    PagesCount(b, SizeOf(index, b));
  }

  lemma AllUsedPages(index: Index, owner: map<Page, Page>, visited: seq<Page>)
    requires Tiled(index, owner) && forall p: Page :: p in visited <==> IsUsed(index, p)
    ensures |UsedPages(index, visited)| + |FreeSet(index, owner)| == |owner.Keys|
  {
    var used, free := UsedPages(index, visited), FreeSet(index, owner);
    forall q: Page ensures q in used <==> q in owner && q !in free {
      if q in owner {
        TiledOwner(index, owner, q);
        if q !in free { assert owner[q] in visited && q in Pages(owner[q], SizeOf(index, owner[q])); }
      }
      if q in used {
        var b :| b in visited && IsHeader(index, b) && q in Pages(b, SizeOf(index, b));
        CoveredOwned(index, owner, b, q);
      }
    }
    assert used + free == owner.Keys;
    CardinalitySum(used, free);
  }

  /** From the free pages `free` and the used blocks `used`, dropping pages has led to `free'` and
      `used'`. */
  ghost predicate Shed(free: set<Page>, used: map<Page, nat>, dropped: set<Page>, free': set<Page>, used': map<Page,
                       nat>) {
    dropped <= free && free' == free - dropped && used' == used + OnePageBlocks(dropped)
  }

  lemma NothingShed(free: set<Page>, used: map<Page, nat>)
    ensures Shed(free, used, {}, free, used)
  {
  }

  lemma ShedIs(free: set<Page>, used: map<Page, nat>, dropped: set<Page>, free': set<Page>, used': map<Page, nat>)
    requires Shed(free, used, dropped, free', used')
    ensures dropped <= free && free' == free - dropped && used' == used + OnePageBlocks(dropped)
  {
  }

  lemma ShedMore(free: set<Page>, used: map<Page, nat>, dropped: set<Page>, free': set<Page>, used': map<Page, nat>,
                 pages: set<Page>)
    requires Shed(free, used, dropped, free', used') && pages <= free'
    ensures Shed(free, used, dropped + pages, free' - pages, used' + OnePageBlocks(pages))
  {
  }

  /** The search of a list has come to position `k` without handing out a block: the blocks before it
      are not wanted, or a better one is at `k`. */
  ghost predicate Passed(index: Index, list: seq<Page>, k: nat, n: nat, maySplit: bool, fit: set<Page>) {
    && k <= |list|
    && forall j: nat | j < k && j < |list| && Wanted(index, list[j], n, maySplit, fit) ::
         maySplit && k < |list| && Wanted(index, list[k], n, maySplit, fit)
  }

  lemma NothingPassed(index: Index, list: seq<Page>, n: nat, maySplit: bool, fit: set<Page>)
    ensures Passed(index, list, 0, n, maySplit, fit)
  {
  }

  lemma PassedNext(index: Index, list: seq<Page>, k: nat, n: nat, maySplit: bool, fit: set<Page>)
    requires k < |list| && Passed(index, list, k, n, maySplit, fit)
    requires Wanted(index, list[k], n, maySplit, fit) ==>
               maySplit && k + 1 < |list| && Wanted(index, list[k + 1], n, maySplit, fit)
    ensures Passed(index, list, k + 1, n, maySplit, fit)
  {
  }

  /** The block at `k`, which was not wanted, is gone. */
  lemma PassedDropped(index0: Index, lists0: seq<seq<Page>>, index: Index, lists: seq<seq<Page>>, i: nat, k: nat,
                      n: nat, maySplit: bool, fit: set<Page>)
    requires Thinned(index0, lists0, index, lists, fit) && i < |lists| && k < |lists0[i]|
    requires lists0[i][k] !in fit && lists[i] == Without(lists0[i], k)
    requires Passed(index0, lists0[i], k, n, maySplit, fit)
    ensures Passed(index, lists[i], k, n, maySplit, fit)
  {
    forall j: nat | j < k && j < |lists[i]| ensures !Wanted(index, lists[i][j], n, maySplit, fit) {
      var b := lists[i][j];
      assert b == lists0[i][j] && b in lists[i] && ThinnedAt(index0, lists0[i], index, lists[i], fit, b);
      assert Wanted(index, b, n, maySplit, fit) ==> Wanted(index0, b, n, maySplit, fit);
    }
  }

  lemma NoneWanted(index: Index, list: seq<Page>, n: nat, maySplit: bool, fit: set<Page>)
    requires Passed(index, list, |list|, n, maySplit, fit)
    ensures forall b | b in list :: !Wanted(index, b, n, maySplit, fit)
  {
    forall b | b in list ensures !Wanted(index, b, n, maySplit, fit) {
      var j: nat :| j < |list| && list[j] == b;
    }
  }

  /** A block that suits and has an admissible place. */
  ghost predicate Wanted(index: Index, b: Page, n: nat, maySplit: bool, fit: set<Page>) {
    Suits(index, b, n, maySplit) && b in fit
  }

  /** Blocks have been dropped from the free lists, but none that is fit; the others are as they were. */
  ghost predicate Thinned(index0: Index, lists0: seq<seq<Page>>, index: Index, lists: seq<seq<Page>>, fit: set<Page>) {
    |lists0| == |lists| &&
    forall j: nat, b: Page | j < |lists| :: ThinnedAt(index0, lists0[j], index, lists[j], fit, b)
  }

  ghost predicate ThinnedAt(index0: Index, list0: seq<Page>, index: Index, list: seq<Page>, fit: set<Page>, b: Page) {
    && (b in list ==> b in list0 && IsFree(index0, b) && IsFree(index, b) && SizeOf(index, b) == SizeOf(index0, b))
    && (b in list0 && b in fit ==> b in list)
  }

  lemma NothingThinned(index: Index, lists: seq<seq<Page>>, fit: set<Page>)
    requires Filed(index, lists)
    ensures Thinned(index, lists, index, lists, fit)
  {
  }

  lemma ThinnedMore(index0: Index, lists0: seq<seq<Page>>, index1: Index, lists1: seq<seq<Page>>, index: Index,
                    lists: seq<seq<Page>>, fit: set<Page>)
    requires Thinned(index0, lists0, index1, lists1, fit) && Thinned(index1, lists1, index, lists, fit)
    ensures Thinned(index0, lists0, index, lists, fit)
  {
    forall j: nat, b: Page | j < |lists| ensures ThinnedAt(index0, lists0[j], index, lists[j], fit, b) {
      assert ThinnedAt(index0, lists0[j], index1, lists1[j], fit, b);
      assert ThinnedAt(index1, lists1[j], index, lists[j], fit, b);
    }
  }

  /** What is wanted is on the lists before and after. */
  lemma StillWanted(index0: Index, lists0: seq<seq<Page>>, index: Index, lists: seq<seq<Page>>, fit: set<Page>, i: nat,
                    n: nat, maySplit: bool)
    requires Thinned(index0, lists0, index, lists, fit) && i < |lists|
    ensures forall b :: b in lists[i] && Wanted(index, b, n, maySplit, fit) <==>
              b in lists0[i] && Wanted(index0, b, n, maySplit, fit)
  {
    forall b ensures b in lists[i] && Wanted(index, b, n, maySplit, fit) <==>
                     b in lists0[i] && Wanted(index0, b, n, maySplit, fit)
    {
      assert ThinnedAt(index0, lists0[i], index, lists[i], fit, b);
    }
  }

  lemma DroppedThins(index0: Index, lists0: seq<seq<Page>>, index: Index, lists: seq<seq<Page>>, i: nat, k: nat,
                     fit: set<Page>)
    requires Filed(index0, lists0) && Filed(index, lists) && i < N_LISTS && k < |lists0[i]| && lists0[i][k] !in fit
    requires lists == lists0[i := Without(lists0[i], k)]
    requires forall b: Page | IsFree(index, b) :: IsFree(index0, b) && SizeOf(index, b) == SizeOf(index0, b)
    ensures Thinned(index0, lists0, index, lists, fit)
  {
    forall j: nat, b: Page | j < |lists| ensures ThinnedAt(index0, lists0[j], index, lists[j], fit, b) {
      if j == i { WithoutMembers(lists0[i], k, b); }
    }
  }

  lemma WithoutMembers(list: seq<Page>, k: nat, b: Page)
    requires k < |list|
    ensures b in Without(list, k) ==> b in list
    ensures b in list && b != list[k] ==> b in Without(list, k)
  {
    assert list == list[..k] + [list[k]] + list[k + 1..];
  }

  lemma StillFree(index: Index, removed: Index, index': Index, p: Page, n: nat)
    requires SameShape(index, removed) && n > 0 && forall x: Page :: CrumbAt(removed, index', p, n, x)
    ensures forall b: Page | IsFree(index', b) ::
              b != p && IsFree(index, b) && SizeOf(index', b) == SizeOf(index, b)
  {
    forall b: Page | IsFree(index', b)
      ensures b != p && IsFree(index, b) && SizeOf(index', b) == SizeOf(index, b)
    {
      assert CrumbAt(removed, index', p, n, b);
    }
  }

  /** A free block that a search for `n` pages takes. */
  predicate Suits(index: Index, b: Page, n: nat, maySplit: bool) {
    IsFree(index, b) && if maySplit then SizeOf(index, b) >= n else SizeOf(index, b) == n
  }

  /** The start of a list. */
  lemma ListAt(index: Index, heads: seq<Page>, bytes: seq<nat>, lists: seq<seq<Page>>, i: nat)
    requires ListsOk(index, heads, bytes, lists, 0, 0, {}) && i < N_LISTS
    ensures |heads| == |bytes| == |lists| == N_LISTS && heads[i] == At(lists[i], 0)
  {
  }

  /** What the links say at a position of a list. */
  lemma ListPosition(index: Index, heads: seq<Page>, bytes: seq<nat>, lists: seq<seq<Page>>, i: nat, k: nat)
    requires ListsOk(index, heads, bytes, lists, 0, 0, {}) && i < N_LISTS
    ensures |heads| == |bytes| == |lists| == N_LISTS && ListOk(index, heads[i], lists[i])
    ensures k < |lists[i]| ==>
              var p := lists[i][k];
              && IsFree(index, p) && p != 0 && Home(index, 0, 0, p) == i
              && index[p].h.prev == At(lists[i], k - 1) && index[p].h.next == At(lists[i], k + 1)
              && (k > 0 ==> index[p].h.prev != 0 && lists[i][k - 1] != 0)
              && (index[p].h.next != 0 ==> k + 1 < |lists[i]|)
  {
    if k < |lists[i]| {
      assert NodeOk(index, lists[i], k) && lists[i][k] in lists[i];
      if k > 0 { assert NodeOk(index, lists[i], k - 1); }
    }
  }

  lemma CardinalityLess<T>(a: set<T>, b: set<T>, c: set<T>)
    requires b != {} && b <= a && c <= a - b
    ensures |c| < |a|
  {
    CardinalityDifference(a, b);
    CardinalityDifference(a - b, c);
  }

  /** The pages of a free block are free pages. */
  lemma FreeBlockPages(index: Index, owner: map<Page, Page>, p: Page)
    requires Tiled(index, owner) && IsFree(index, p)
    ensures var free, pages := FreeSet(index, owner), Pages(p, SizeOf(index, p));
            && pages <= free && |free - pages| == |free| - SizeOf(index, p)
            && index[p].h.sz == 4096 * SizeOf(index, p) && SizeOf(index, p) > 0
  {
    TiledEntry(index, owner, p);
    BlockWhole(index, owner, p);
    PagesCount(p, SizeOf(index, p));
    CardinalityDifference(FreeSet(index, owner), Pages(p, SizeOf(index, p)));
  }

  lemma ListCount(index: Index, heads: seq<Page>, bytes: seq<nat>, lists: seq<seq<Page>>, e: Page, n: nat,
                  away: set<Page>)
    requires ListsOk(index, heads, bytes, lists, e, n, away)
    ensures |heads| == |bytes| == |lists| == N_LISTS
  {
  }

  lemma CrumbledLists(index: Index, index': Index, owner: map<Page, Page>, p: Page)
    requires Tiled(index, owner) && IsFree(index, p)
    requires forall q: Page :: CrumbAt(index, index', p, SizeOf(index, p), q)
    ensures forall q: Page | q !in Pages(p, SizeOf(index, p)) :: Same(index, index', q)
    ensures forall q | q in Pages(p, SizeOf(index, p)) :: (IsFree(index, q) ==> q == p) && !IsFree(index', q)
    ensures p in Pages(p, SizeOf(index, p))
  {
    var n := SizeOf(index, p);
    TiledEntry(index, owner, p);
    forall q: Page ensures q !in Pages(p, n) ==> Same(index, index', q)
                   ensures q in Pages(p, n) ==> (IsFree(index, q) ==> q == p) && !IsFree(index', q)
    {
      assert CrumbAt(index, index', p, n, q);
      if p < q < p + n && IsHeader(index, q) { NoHeaderInside(index, owner, p, q); }
    }
  }

  /** The blocks after the allocation of the first part `p`. */
  lemma TakenBlock(index: Index, owner: map<Page, Page>, p: Page, h: Header, loose: set<Page>)
    requires IsFree(index, p) && !h.free && Blocks(h.sz) > 0
    requires Tiled(Resized(index, p, Blocks(h.sz)), owner) && NoAdjacent(Resized(index, p, Blocks(h.sz)), loose)
    requires forall x | x in loose && x != p && IsFree(index, x) :: x + SizeOf(index, x) == p
    ensures var n := Blocks(h.sz);
            var taken, before := WithCounts(index, p, n)[p := Hdr(h)], FreeSet(Resized(index, p, n), owner);
            && Tiled(taken, owner) && NoAdjacent(taken, {})
            && Pages(p, n) <= before && FreeSet(taken, owner) == before - Pages(p, n)
            && |FreeSet(taken, owner)| == |before| - n
            && UsedBlocks(taken) == UsedBlocks(Resized(index, p, n))[p := h.sz]
  {
    hide Tiled, FreeSet, UsedBlocks, NoAdjacent, WithCounts;
    var n := Blocks(h.sz);
    var first, taken := Resized(index, p, n), WithCounts(index, p, n)[p := Hdr(h)];
    TakenTiled(first, owner, p, h);
    TakenEntries(index, owner, p, n, h);
    UsedApart(first, taken, loose);
    Tighten(taken, loose, {});
    PagesCount(p, n);
    CardinalityDifference(FreeSet(first, owner), Pages(p, n));
  }

  /** The index in which the block `p` has `n` pages; the header is set up only at the end of an
      allocation. */
  ghost function Resized(index: Index, p: Page, n: nat): Index
    requires IsHeader(index, p)
  {
    index[p := Hdr(index[p].h.(sz := 4096 * n))]
  }

  lemma ShapeBlocks(index: Index, index': Index)
    requires SameShape(index, index')
    ensures forall x: Page :: SameBlock(index, index', x)
    ensures forall x: Page | IsFree(index, x) :: IsFree(index', x) && SizeOf(index', x) == SizeOf(index, x)
  {
  }

  lemma CardinalityDifference<T>(a: set<T>, b: set<T>)
    requires b <= a
    ensures |a - b| == |a| - |b|
  {
    assert a == (a - b) + b;
    CardinalitySum(a - b, b);
  }

  /** Splitting off the first `n` pages of an unlisted block. */
  lemma FirstPartIndex(index: Index, owner: map<Page, Page>, p: Page, n: nat, loose: set<Page>)
    requires Tiled(index, owner) && NoAdjacent(index, loose) && p !in loose
    requires IsFree(index, p) && 0 < n <= SizeOf(index, p) && index[p].h.sz != 4096 * n
    ensures index[p].h.sz > 4096 * n && p + n !in index && n < SizeOf(index, p)
    ensures var rest := Header(index[p].h.sz - 4096 * n, true, 0, 0);
            var split := index[p := Hdr(index[p].h.(sz := 4096 * n))][p + n := Hdr(rest)];
            var owner' := Retiled(owner, p, n, SizeOf(index, p));
            && Tiled(split, owner') && NoAdjacent(split, loose + {p}) && owner'.Keys == owner.Keys
            && FreeSet(split, owner') == FreeSet(index, owner) && UsedBlocks(split) == UsedBlocks(index)
  {
    TiledEntry(index, owner, p);
    var rest := Header(index[p].h.sz - 4096 * n, true, 0, 0);
    SplitTiled(index, owner, p, n, index[p].h.(sz := 4096 * n), rest);
    SplitApart(index, owner, p, n, index[p].h.(sz := 4096 * n), rest, loose);
  }

  /** Installing and listing the rest, seen with the block `p` at its new size. */
  lemma FirstPartShape(removed: Index, installed: Index, index: Index, p: Page, n: nat)
    requires IsFree(removed, p) && p + n !in removed && 0 < n && removed[p].h.sz > 4096 * n
    requires installed == removed[p + n := Hdr(Header(removed[p].h.sz - 4096 * n, false, 0, 0))]
    requires SameShape(installed[p + n := Hdr(installed[p + n].h.(free := true))], index)
    ensures IsFree(index, p)
    ensures SameShape(removed[p := Hdr(removed[p].h.(sz := 4096 * n))]
                             [p + n := Hdr(Header(removed[p].h.sz - 4096 * n, true, 0, 0))], Resized(index, p, n))
    ensures forall x: Page | x != p && x != p + n :: SameBlock(removed, index, x)
  {
  }

  lemma OtherBlocks(index: Index, removed: Index, index': Index, p: Page, n: nat)
    requires forall x: Page :: SameBlock(index, removed, x)
    requires forall x: Page | x != p && x != p + n :: SameBlock(removed, index', x)
    requires IsHeader(index, p) && 0 < n < SizeOf(index, p)
    ensures forall x: Page | x != p && (x < p || x >= p + SizeOf(index, p)) :: SameBlock(index, index', x)
  {
    forall x: Page | x != p && (x < p || x >= p + SizeOf(index, p)) ensures SameBlock(index, index', x) {
      assert SameBlock(index, removed, x) && SameBlock(removed, index', x);
    }
  }

  /** What allotting the block does to the index. */
  lemma TakenEntries(index: Index, owner: map<Page, Page>, p: Page, n: nat, h: Header)
    requires IsFree(index, p) && Tiled(Resized(index, p, n), owner) && n > 0 && !h.free && Blocks(h.sz) == n
    ensures var taken := WithCounts(index, p, n)[p := Hdr(h)];
            && taken == WithCounts(Resized(index, p, n), p, n)[p := Hdr(h)]
            && (forall q: Page | q !in Pages(p, n) :: Same(index, taken, q))
            && (forall q | q in Pages(p, n) :: (IsFree(index, q) ==> q == p) && !IsFree(taken, q))
            && (forall x: Page | IsFree(taken, x) ::
                  IsFree(Resized(index, p, n), x) && SizeOf(taken, x) == SizeOf(Resized(index, p, n), x) &&
                  IsFree(index, x) && SizeOf(taken, x) == SizeOf(index, x))
  {
    var first := Resized(index, p, n);
    var taken, taken' := WithCounts(index, p, n)[p := Hdr(h)], WithCounts(first, p, n)[p := Hdr(h)];
    forall q: Page ensures q in taken <==> q in taken'
                   ensures q in taken ==> taken[q] == taken'[q]
                   ensures q !in Pages(p, n) ==> Same(index, taken, q) && Same(first, taken, q)
                   ensures q in Pages(p, n) ==> (IsFree(index, q) ==> q == p) && !IsFree(taken, q)
    {
      WithCountsAt(index, p, n, q);
      WithCountsAt(first, p, n, q);
      if p < q < p + n { CoveredOwned(first, owner, p, q); }
    }
    assert taken == taken';
    forall x: Page | IsFree(taken, x)
      ensures IsFree(first, x) && SizeOf(taken, x) == SizeOf(first, x) &&
              IsFree(index, x) && SizeOf(taken, x) == SizeOf(index, x)
    {
      assert x !in Pages(p, n);
      assert Same(index, taken, x) && Same(first, taken, x);
    }
  }

  /** The blocks after the split, before the lower part is listed again. */
  lemma SplitIndex(index: Index, owner: map<Page, Page>, head: Page, list: seq<Page>, k: nat, m: Page)
    requires Tiled(index, owner) && NoAdjacent(index, {}) && ListOk(index, head, list) && k < |list|
    requires IsFree(index, list[k]) && list[k] < m < list[k] + SizeOf(index, list[k])
    ensures var p := list[k];
            m !in index && 4096 * (m - p) <= index[p].h.sz &&
            var index', owner' := Displaced(index, p, m, 4096 * (m - p)), Retiled(owner, p, m - p, SizeOf(index, p));
            && Tiled(index', owner') && NoAdjacent(index', {p}) && owner'.Keys == owner.Keys
            && FreeSet(index', owner') == FreeSet(index, owner) && UsedBlocks(index') == UsedBlocks(index)
            && IsFree(index', p) && p + SizeOf(index', p) == m && index'[p].h.sz == 4096 * (m - p)
            && IsFree(index', m) && m + SizeOf(index', m) == p + SizeOf(index, p)
  {
    hide Tiled, NoAdjacent, FreeSet, UsedBlocks, ListOk, Displaced;
    var p, size := list[k], 4096 * (m - list[k]);
    var h := index[p].h;
    TiledEntry(index, owner, p);
    var rest := Header(h.sz - size, true, 0, 0);
    var split: Index := index[p := Hdr(h.(sz := size))][m := Hdr(rest)];
    SplitTiled(index, owner, p, m - p, h.(sz := size), rest);
    SplitApart(index, owner, p, m - p, h.(sz := size), rest, {});
    assert {} + {p} == {p};
    DisplacedShape(index, head, list, k, m, size);
    ShapeTiled(split, Displaced(index, p, m, size), Retiled(owner, p, m - p, SizeOf(index, p)));
    ShapeAdjacent(split, Displaced(index, p, m, size), {p});
  }

  /** Listing the lower part changes only links. */
  lemma AfterSplit(displaced: Index, index: Index, owner: map<Page, Page>, p: Page, loose: set<Page>)
    requires Tiled(displaced, owner) && NoAdjacent(displaced, loose) && IsFree(displaced, p)
    requires SameShape(displaced[p := Hdr(displaced[p].h.(free := true))], index)
    ensures Tiled(index, owner) && NoAdjacent(index, loose)
    ensures forall q: Page :: SameBlock(displaced, index, q)
    ensures FreeSet(index, owner) == FreeSet(displaced, owner) && UsedBlocks(index) == UsedBlocks(displaced)
  {
    SameFlag(displaced, p);
    ShapeTiled(displaced, index, owner);
    ShapeAdjacent(displaced, index, loose);
  }

  lemma DisplacedSteps(index: Index, p: Page, m: Page, size: nat)
    requires IsHeader(index, p) && size <= index[p].h.sz && m !in index
    requires var h := index[p].h;
             (h.prev != 0 ==> IsHeader(index, h.prev) && h.prev != p) &&
             (h.next != 0 ==> IsHeader(index, h.next) && h.next != p && h.next != h.prev)
    ensures var h := index[p].h;
            var index1 := index[m := Hdr(Header(h.sz - size, true, h.prev, h.next))];
            var index2 := if h.prev != 0 then index1[h.prev := Hdr(index1[h.prev].h.(next := m))] else index1;
            var index3 := if h.next != 0 then index2[h.next := Hdr(index2[h.next].h.(prev := m))] else index2;
            index3[p := Hdr(h.(sz := size))] == Displaced(index, p, m, size)
  {
  }

  lemma NoPages(p: Page, free: set<Page>, owner: map<Page, Page>)
    ensures free + Pages(p, 0) == free && owner.Keys + Pages(p, 0) == owner.Keys
  {
  }

  lemma NewHeader(index: Index, owner: map<Page, Page>, p: Page, n: nat)
    requires Tiled(index, owner) && n > 0 && p !in owner
    ensures p !in index && Blocks(4096 * n) == n
  {
    assert TiledAt(index, owner, p);
  }

  lemma NotUsedYet(index: Index, p: Page)
    requires p !in index
    ensures UsedBlocks(index) - {p} == UsedBlocks(index)
  {
  }

  lemma CardinalitySum<T>(a: set<T>, b: set<T>)
    requires a * b == {}
    ensures |a + b| == |a| + |b|
  {
  }

  ghost predicate SameBlock(index: Index, index': Index, x: Page) {
    IsHeader(index, x) ==>
      IsHeader(index', x) && index'[x].h.sz == index[x].h.sz && index'[x].h.free == index[x].h.free
  }

  lemma NoNullHeader(index: Index, owner: map<Page, Page>)
    requires Tiled(index, owner)
    ensures 0 !in index
  {
    if 0 in index { TiledEntry(index, owner, 0); }
  }

  lemma FollowerNotLoose(index: Index, owner: map<Page, Page>, p: Page, prev: Page)
    requires Tiled(index, owner) && IsFree(index, p)
    requires prev != 0 ==> IsFree(index, prev) && prev + SizeOf(index, prev) == p
    ensures SizeOf(index, p) > 0 && p + SizeOf(index, p) !in {p, prev} && prev < p
  {
    TiledEntry(index, owner, p);
    if prev != 0 { TiledEntry(index, owner, prev); }
  }

  lemma SameFlag(index: Index, p: Page)
    requires IsFree(index, p)
    ensures index[p := Hdr(index[p].h.(free := true))] == index
  {
  }

  /** No free block but perhaps `prev` ends where `p` begins. */
  ghost predicate OnlyFreeBefore(index: Index, p: Page, prev: Page) {
    forall x: Page | IsFree(index, x) && x + SizeOf(index, x) == p :: x == prev
  }

  /** What releasing the block `p` does to the index. */
  lemma ReleasedEntries(index: Index, index0: Index, owner: map<Page, Page>, p: Page, n: nat, h: Header)
    requires IsUsed(index, p) && SizeOf(index, p) == n > 0
    requires Tiled(index0, owner) && (index0 == index || index0 == index - {p})
    requires index0 == index - {p} ==> forall q: Page | p <= q < p + n :: q !in owner
    ensures var index1 := WithoutCounts(index, p, n)[p := Hdr(h)];
            && (forall q: Page | !(p <= q < p + n) :: Same(index, index1, q) && Same(index0, index1, q))
            && (forall q: Page | p < q < p + n :: !IsFree(index, q) && q !in index1)
            && (index0 == index - {p} ==> index1 == index0[p := Hdr(h)])
            && (index0 == index - {p} ==> p !in index0 && p !in UsedBlocks(index0))
  {
    var index1 := WithoutCounts(index, p, n)[p := Hdr(h)];
    forall q: Page ensures !(p <= q < p + n) ==> Same(index, index1, q) && Same(index0, index1, q)
                   ensures p < q < p + n ==> !IsFree(index, q) && q !in index1
                   ensures index0 == index - {p} && p < q < p + n ==> q !in index0
    {
      WithoutCountsAt(index, p, n, q);
      if p < q < p + n {
        if index0 == index {
          CoveredOwned(index, owner, p, q);
        } else {
          assert TiledAt(index0, owner, q);
        }
      }
    }
  }

  lemma {:induction false} ZeroSum(bytes: seq<nat>)
    requires forall i | 0 <= i < |bytes| :: bytes[i] == 0
    ensures Sum(bytes) == 0
  {
    if bytes != [] { ZeroSum(bytes[1..]); }
  }

  /** The links of the page at position `k`. */
  lemma PrevNext(index: Index, head: Page, list: seq<Page>, k: nat)
    requires ListOk(index, head, list) && k < |list|
    ensures var p := list[k];
            && IsFree(index, p) && p != 0
            && var h := index[p].h;
            && (h.prev == 0 <==> k == 0) && (h.prev != 0 ==> IsHeader(index, h.prev) && h.prev != p)
            && (h.next != 0 ==> IsHeader(index, h.next) && h.next != p && h.next != h.prev)
            && (k == 0 ==> h.next == At(list, 1))
  {
    assert NodeOk(index, list, k);
    if k > 0 { assert NodeOk(index, list, k - 1); }
    if k + 1 < |list| { assert NodeOk(index, list, k + 1); }
  }

  lemma UnlinkedSteps(index: Index, p: Page)
    requires IsHeader(index, p)
    requires var h := index[p].h; (h.prev != 0 ==> IsHeader(index, h.prev)) && (h.next != 0 ==> IsHeader(index, h.next))
    ensures var h := index[p].h;
            var index1 := if h.prev == 0 then index else index[h.prev := Hdr(index[h.prev].h.(next := h.next))];
            Unlinked(index, p) == if h.next == 0 then index1
              else index1[h.next := Hdr(index1[h.next].h.(prev := h.prev))]
  {
  }

  lemma LinkedSteps(index: Index, p: Page, second: Page)
    requires IsHeader(index, p)
    ensures var index1 := index[p := Hdr(index[p].h.(free := true, prev := 0, next := second))];
            second == 0 || IsHeader(index1, second) ==>
              Linked(index, p, second) ==
              if second == 0 then index1 else index1[second := Hdr(index1[second].h.(prev := p))]
  {
  }

  /** Where a free block is listed. */
  lemma Position(index: Index, heads: seq<Page>, bytes: seq<nat>, lists: seq<seq<Page>>, e: Page, n: nat,
                 away: set<Page>,
                 p: Page)
    returns (i: nat, k: nat)
    requires ListsOk(index, heads, bytes, lists, e, n, away) && IsFree(index, p) && p !in away
    ensures i < N_LISTS && |heads| == |bytes| == |lists| == N_LISTS && i == Home(index, e, n, p)
    ensures k < |lists[i]| && lists[i][k] == p && ListOk(index, heads[i], lists[i]) && p != 0
  {
    i := Home(index, e, n, p);
    k :| k < |lists[i]| && lists[i][k] == p;
    Listed(index, heads[i], lists[i], p);
  }

  lemma HeadOk(index: Index, head: Page, list: seq<Page>)
    requires ListOk(index, head, list)
    ensures head != 0 ==> IsHeader(index, head) && head in list
  {
    if list != [] { assert NodeOk(index, list, 0); }
  }

  /** A block that is on no list is on no wrong list. */
  lemma NoException(index: Index, heads: seq<Page>, bytes: seq<nat>, lists: seq<seq<Page>>, e: Page, n: nat,
                    away: set<Page>)
    requires ListsOk(index, heads, bytes, lists, e, n, away) && (e in away || e == 0)
    ensures ListsOk(index, heads, bytes, lists, 0, 0, away)
  {
    hide ListOk, Total;
    forall i: nat, p: Page | i < N_LISTS && p in lists[i]
      ensures IsHeader(index, p) && p !in away && Home(index, 0, 0, p) == i
    {
      assert Home(index, e, n, p) == i;
    }
  }

  /** A count leads to another entry of the same used block. */
  lemma CountLands(index: Index, owner: map<Page, Page>, q: Page)
    requires Tiled(index, owner) && q in index && index[q].Count?
    ensures 0 < index[q].n < q && q in owner && IsUsed(index, owner[q])
    ensures var q' := q - index[q].n; q' in index && q' in owner && owner[q'] == owner[q]
  {
    TiledEntry(index, owner, q);
    TiledOwner(index, owner, q);
    CoveredOwned(index, owner, owner[q], q - index[q].n);
    TiledOwner(index, owner, owner[q]);
  }

  /** A free header just before a header is a block of one page. */
  lemma HeaderBefore(index: Index, owner: map<Page, Page>, p: Page, h: Page)
    requires Tiled(index, owner) && IsFree(index, p) && IsHeader(index, h) && p < h
    requires p < h - 1 ==> h - 1 in owner && IsUsed(index, owner[h - 1]) && p in owner && owner[p] == owner[h - 1]
    ensures p + SizeOf(index, p) == h && p == h - 1
  {
    TiledEntry(index, owner, p);
    TiledEntry(index, owner, h);
    if SizeOf(index, p) > 1 { assert Covers(index, p, h); CoveredOwned(index, owner, p, h); }
  }

  lemma NoHeaderInside(index: Index, owner: map<Page, Page>, x: Page, p: Page)
    requires Tiled(index, owner) && IsHeader(index, x) && IsHeader(index, p) && x <= p < x + SizeOf(index, x)
    ensures x == p
  {
    CoveredOwned(index, owner, x, p);
    TiledEntry(index, owner, p);
  }
}
