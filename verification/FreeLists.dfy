/** The segregated free lists of heap blocks (src/gc-7.2/allchblk.c:37-105, 286-398): one doubly
    linked list for each small size, one for each range of larger ones, threaded through the block
    headers. */
module FreeLists {
  import opened HeaderIndex

  const N_LISTS := 61

  /** `GC_hblk_fl_from_blocks` */
  function FlFromBlocks(n: nat): (i: nat)
    ensures i < N_LISTS
  {
    if n <= 32 then n else if n >= 256 then 60 else (n - 32) / 8 + 32
  }

  lemma FlMonotone(a: nat, b: nat)
    requires a <= b
    ensures FlFromBlocks(a) <= FlFromBlocks(b)
    ensures FlFromBlocks(a) == FlFromBlocks(b) && b <= 31 ==> a == b
  {
  }

  /** The page at position `k`, or null outside the list. */
  function At(list: seq<Page>, k: int): Page {
    if 0 <= k < |list| then list[k] else 0
  }

  predicate NodeOk(index: Index, list: seq<Page>, k: nat)
    requires k < |list|
  {
    && list[k] != 0
    && IsFree(index, list[k])
    && index[list[k]].h.prev == At(list, k - 1)
    && index[list[k]].h.next == At(list, k + 1)
  }

  /** The links that start at `head` spell out `list`. */
  ghost predicate ListOk(index: Index, head: Page, list: seq<Page>) {
    && head == At(list, 0)
    && (forall k: nat | k < |list| :: NodeOk(index, list, k))
    && (forall k, l | 0 <= k < l < |list| :: list[k] != list[l])
  }

  function Without(list: seq<Page>, k: nat): (r: seq<Page>)
    requires k < |list|
    ensures |r| == |list| - 1
    ensures forall i | 0 <= i < |r| :: r[i] == if i < k then list[i] else list[i + 1]
  {
    list[..k] + list[k + 1..]
  }

  lemma ListOkFrame(index: Index, index': Index, head: Page, list: seq<Page>)
    requires ListOk(index, head, list)
    requires forall p | p in list && p in index :: p in index' && index'[p] == index[p]
    ensures ListOk(index', head, list)
  {
    forall k: nat | k < |list| ensures NodeOk(index', list, k) {
      assert NodeOk(index, list, k) && list[k] in list;
    }
  }

  /** The bytes on a list. */
  function Total(index: Index, list: seq<Page>): nat {
    if list == [] then 0
    else (if IsHeader(index, list[0]) then index[list[0]].h.sz else 0) + Total(index, list[1..])
  }

  lemma {:induction false} TotalFrame(index: Index, index': Index, list: seq<Page>)
    requires forall p | p in list :: IsHeader(index, p) && IsHeader(index', p) && index'[p].h.sz == index[p].h.sz
    ensures Total(index', list) == Total(index, list)
  {
    if list != [] {
      assert list[0] in list;
      TotalFrame(index, index', list[1..]);
    }
  }

  lemma {:induction false} TotalWithout(index: Index, list: seq<Page>, k: nat)
    requires k < |list| && IsHeader(index, list[k])
    ensures Total(index, list) == Total(index, Without(list, k)) + index[list[k]].h.sz
  {
    if k == 0 {
      assert Without(list, k) == list[1..];
    } else {
      TotalWithout(index, list[1..], k - 1);
      assert Without(list, k)[1..] == Without(list[1..], k - 1);
    }
  }

  // ---- Unlinking and linking ----

  /** The headers after `p` is taken out of its list: only its neighbours change. */
  function Unlinked(index: Index, p: Page): Index {
    var h := if IsHeader(index, p) then index[p].h else Header(0, false, 0, 0);
    var index1 := if IsHeader(index, h.prev) && h.prev != 0
                  then index[h.prev := Hdr(index[h.prev].h.(next := h.next))] else index;
    if IsHeader(index1, h.next) && h.next != 0
    then index1[h.next := Hdr(index1[h.next].h.(prev := h.prev))] else index1
  }

  /** The headers after `p` is put in front of a list headed by `second`. */
  function Linked(index: Index, p: Page, second: Page): Index
    requires IsHeader(index, p)
  {
    var index1 := index[p := Hdr(index[p].h.(free := true, prev := 0, next := second))];
    if IsHeader(index1, second) && second != 0
    then index1[second := Hdr(index1[second].h.(prev := p))] else index1
  }

  /** The same blocks with the same sizes and flags; only links may differ. */
  ghost predicate SameShape(index: Index, index': Index) {
    && (forall q :: q in index <==> q in index')
    && (forall q | q in index && index[q].Count? :: index'[q] == index[q])
    && (forall q | q in index && index[q].Hdr? ::
          index'[q].Hdr? && index'[q].h.sz == index[q].h.sz && index'[q].h.free == index[q].h.free)
  }

  lemma UnlinkedAt(index: Index, head: Page, list: seq<Page>, k: nat, q: Page)
    requires ListOk(index, head, list) && k < |list|
    ensures q in Unlinked(index, list[k]) <==> q in index
    ensures k > 0 && q == list[k - 1] ==>
              IsHeader(index, q) && Unlinked(index, list[k])[q] == Hdr(index[q].h.(next := At(list, k + 1)))
    ensures k + 1 < |list| && q == list[k + 1] ==>
              IsHeader(index, q) && Unlinked(index, list[k])[q] == Hdr(index[q].h.(prev := At(list, k - 1)))
    ensures q in index && q != At(list, k - 1) && q != At(list, k + 1) ==> Unlinked(index, list[k])[q] == index[q]
  {
    assert NodeOk(index, list, k);
    if k > 0 { assert NodeOk(index, list, k - 1); }
    if k + 1 < |list| { assert NodeOk(index, list, k + 1); }
  }

  lemma UnlinkedShape(index: Index, head: Page, list: seq<Page>, k: nat)
    requires ListOk(index, head, list) && k < |list|
    ensures SameShape(index, Unlinked(index, list[k]))
    ensures list[k] in index && list[k] in Unlinked(index, list[k])
    ensures Unlinked(index, list[k])[list[k]] == index[list[k]]
    ensures forall q | q in index && q !in list :: Unlinked(index, list[k])[q] == index[q]
  {
    forall q: Page ensures
      && (q in index <==> q in Unlinked(index, list[k]))
      && (q in index && (q !in list || q == list[k]) ==> Unlinked(index, list[k])[q] == index[q])
      && (q in index ==>
            (index[q].Count? ==> Unlinked(index, list[k])[q] == index[q]) &&
            (index[q].Hdr? ==>
               Unlinked(index, list[k])[q].Hdr? && Unlinked(index, list[k])[q].h.sz == index[q].h.sz &&
               Unlinked(index, list[k])[q].h.free == index[q].h.free))
    {
      UnlinkedAt(index, head, list, k, q);
    }
    assert NodeOk(index, list, k);
  }

  /** Taking out the page at position `k` leaves the list without it. */
  lemma UnlinkedOk(index: Index, head: Page, list: seq<Page>, k: nat)
    requires ListOk(index, head, list) && k < |list|
    ensures ListOk(Unlinked(index, list[k]), if k == 0 then At(list, 1) else head, Without(list, k))
  {
    var index', r := Unlinked(index, list[k]), Without(list, k);
    forall i: nat | i < |r| ensures NodeOk(index', r, i) {
      var j := if i < k then i else i + 1;
      assert NodeOk(index, list, j);
      UnlinkedAt(index, head, list, k, list[j]);
      assert At(r, i - 1) == if i == k then At(list, k - 1) else At(list, j - 1);
      assert At(r, i + 1) == if i + 1 == k then At(list, k + 1) else At(list, j + 1);
    }
  }

  lemma LinkedAt(index: Index, head: Page, list: seq<Page>, p: Page, q: Page)
    requires ListOk(index, head, list) && IsHeader(index, p) && p !in list
    ensures q in Linked(index, p, head) <==> q in index
    ensures Linked(index, p, head)[p] == Hdr(index[p].h.(free := true, prev := 0, next := head))
    ensures list != [] && q == head ==> IsHeader(index, q) && Linked(index, p, head)[q] == Hdr(index[q].h.(prev := p))
    ensures q in index && q != p && q != head ==> Linked(index, p, head)[q] == index[q]
    ensures q in index && q != p && list == [] ==> Linked(index, p, head)[q] == index[q]
  {
    if list != [] { assert NodeOk(index, list, 0) && list[0] in list; }
  }

  /** Putting `p` in front of a list it is not on. */
  lemma LinkedOk(index: Index, head: Page, list: seq<Page>, p: Page)
    requires ListOk(index, head, list) && IsHeader(index, p) && p !in list && p != 0
    ensures ListOk(Linked(index, p, head), p, [p] + list)
  {
    var index', r := Linked(index, p, head), [p] + list;
    forall i: nat | i < |r| ensures NodeOk(index', r, i) {
      if i > 0 {
        assert NodeOk(index, list, i - 1) && list[i - 1] in list;
        assert list[i - 1] == head <==> i == 1;
      }
      LinkedAt(index, head, list, p, r[i]);
      assert At(r, i - 1) == if i == 0 then 0 else if i == 1 then p else At(list, i - 2);
      assert At(r, i + 1) == At(list, i);
    }
  }

  lemma LinkedShape(index: Index, head: Page, list: seq<Page>, p: Page)
    requires ListOk(index, head, list) && IsHeader(index, p) && p !in list
    ensures SameShape(index[p := Hdr(index[p].h.(free := true))], Linked(index, p, head))
    ensures forall q | q in index && q !in list && q != p :: Linked(index, p, head)[q] == index[q]
  {
    forall q: Page ensures
      && (q in index <==> q in Linked(index, p, head))
      && (q in index && q !in list && q != p ==> Linked(index, p, head)[q] == index[q])
      && (q in index && q != p ==>
            (index[q].Count? ==> Linked(index, p, head)[q] == index[q]) &&
            (index[q].Hdr? ==>
               Linked(index, p, head)[q].Hdr? && Linked(index, p, head)[q].h.sz == index[q].h.sz &&
               Linked(index, p, head)[q].h.free == index[q].h.free))
    {
      LinkedAt(index, head, list, p, q);
      if list != [] { assert list[0] in list; }
    }
  }

  // ---- All lists together ----

  /** The list a free block is on: the one for its size, but for the block `e`, which is on list `n`. */
  function Home(index: Index, e: Page, n: nat, p: Page): nat
    requires IsHeader(index, p)
  {
    if p == e && e != 0 then n else FlFromBlocks(SizeOf(index, p))
  }

  /** The free lists: each is well linked, its byte count is exact, and the free blocks but for those
      in `away` are each on exactly one list, the one for its size. Page `e`, if not null, is on list
      `n` instead, between a split and the allocation it is made for. */
  ghost predicate ListsOk(index: Index, heads: seq<Page>, bytes: seq<nat>, lists: seq<seq<Page>>,
                          e: Page, n: nat, away: set<Page>)
  {
    && |heads| == N_LISTS && |bytes| == N_LISTS && |lists| == N_LISTS && n < N_LISTS
    && (forall i: nat | i < N_LISTS :: ListOk(index, heads[i], lists[i]) && bytes[i] == Total(index, lists[i]))
    && (forall i: nat, p: Page | i < N_LISTS && p in lists[i] ::
          IsHeader(index, p) && p !in away && Home(index, e, n, p) == i)
    && (forall p: Page | IsFree(index, p) && p !in away :: p in lists[Home(index, e, n, p)])
  }

  /** The sum of the byte counts. */
  function Sum(bytes: seq<nat>): nat {
    if bytes == [] then 0 else bytes[0] + Sum(bytes[1..])
  }

  lemma {:induction false} SumUpdate(bytes: seq<nat>, i: nat, b: nat)
    requires i < |bytes|
    ensures Sum(bytes[i := b]) + bytes[i] == Sum(bytes) + b
  {
    if i > 0 {
      SumUpdate(bytes[1..], i - 1, b);
      assert bytes[i := b][1..] == bytes[1..][i - 1 := b];
    } else {
      assert bytes[i := b][1..] == bytes[1..];
    }
  }

  /** `p` leaves list `i`. */
  lemma RemovedOk(index: Index, heads: seq<Page>, bytes: seq<nat>, lists: seq<seq<Page>>, e: Page, n: nat,
                  away: set<Page>, i: nat, k: nat)
    requires ListsOk(index, heads, bytes, lists, e, n, away) && i < N_LISTS && k < |lists[i]|
    ensures var p := lists[i][k];
            && IsFree(index, p) && bytes[i] >= index[p].h.sz
            && SameShape(index, Unlinked(index, p))
            && ListsOk(Unlinked(index, p), heads[i := if k == 0 then At(lists[i], 1) else heads[i]],
                       bytes[i := bytes[i] - index[p].h.sz], lists[i := Without(lists[i], k)],
                       e, n, away + {p})
  {
    hide ListOk, Unlinked, Total;
    var p := lists[i][k];
    Listed(index, heads[i], lists[i], p);
    var index', lists' := Unlinked(index, p), lists[i := Without(lists[i], k)];
    UnlinkedShape(index, heads[i], lists[i], k);
    UnlinkedOk(index, heads[i], lists[i], k);
    TotalWithout(index, lists[i], k);
    forall j: nat | j < N_LISTS
      ensures ListOk(index', if j == i && k == 0 then At(lists[i], 1) else heads[j], lists'[j])
      ensures Total(index', lists'[j]) == if j == i then bytes[i] - index[p].h.sz else bytes[j]
      ensures forall q | q in lists'[j] :: IsHeader(index', q) && q !in away + {p} && Home(index', e, n, q) == j
    {
      forall q | q in lists'[j] ensures q in lists[j] && IsHeader(index, q) && q != p && index'[q].Hdr? &&
                                         index'[q].h.sz == index[q].h.sz {
        if j == i { WithoutKeeps(index, heads[i], lists[i], k, q); }
      }
      if j != i { ListOkFrame(index, index', heads[j], lists[j]); }
      TotalFrame(index, index', lists'[j]);
    }
    forall q: Page | IsFree(index', q) && q !in away + {p} ensures q in lists'[Home(index', e, n, q)] {
      assert IsFree(index, q);
      WithoutKeeps(index, heads[i], lists[i], k, q);
    }
  }

  lemma WithoutKeeps(index: Index, head: Page, list: seq<Page>, k: nat, q: Page)
    requires ListOk(index, head, list) && k < |list|
    ensures q in Without(list, k) <==> q in list && q != list[k]
  {
    if q in list && q != list[k] {
      var l :| 0 <= l < |list| && list[l] == q;
      assert Without(list, k)[if l < k then l else l - 1] == q;
    }
  }

  /** `p` joins the front of the list for its size. */
  lemma AddedOk(index: Index, heads: seq<Page>, bytes: seq<nat>, lists: seq<seq<Page>>, e: Page, n: nat,
                away: set<Page>, p: Page)
    requires ListsOk(index, heads, bytes, lists, e, n, away) && IsHeader(index, p) && p != 0 && p != e
    requires index[p].h.free ==> p in away
    ensures var i := FlFromBlocks(SizeOf(index, p));
            && p !in lists[i]
            && SameShape(index[p := Hdr(index[p].h.(free := true))], Linked(index, p, heads[i]))
            && ListsOk(Linked(index, p, heads[i]), heads[i := p], bytes[i := bytes[i] + index[p].h.sz],
                       lists[i := [p] + lists[i]], e, n, away - {p})
  {
    var i := FlFromBlocks(SizeOf(index, p));
    NotListed(index, heads, bytes, lists, e, n, away, p);
    hide ListOk, Linked;
    var index', lists' := Linked(index, p, heads[i]), lists[i := [p] + lists[i]];
    LinkedShape(index, heads[i], lists[i], p);
    LinkedOk(index, heads[i], lists[i], p);
    forall j: nat | j < N_LISTS
      ensures ListOk(index', if j == i then p else heads[j], lists'[j])
      ensures Total(index', lists'[j]) == if j == i then bytes[i] + index[p].h.sz else bytes[j]
      ensures forall q | q in lists'[j] :: IsHeader(index', q) && q !in away - {p} && Home(index', e, n, q) == j
    {
      forall q | q in lists[j]
        ensures IsHeader(index, q) && q != p && index'[q].Hdr? && index'[q].h.sz == index[q].h.sz {
      }
      if j != i { ListOkFrame(index, index', heads[j], lists[j]); }
      TotalFrame(index, index', lists[j]);
      if j == i { assert lists'[j][1..] == lists[j]; }
    }
    forall q: Page | IsFree(index', q) && q !in away - {p} ensures q in lists'[Home(index', e, n, q)] {
      if q != p { assert IsFree(index, q); }
    }
  }

  lemma NotListed(index: Index, heads: seq<Page>, bytes: seq<nat>, lists: seq<seq<Page>>, e: Page, n: nat,
                  away: set<Page>, p: Page)
    requires ListsOk(index, heads, bytes, lists, e, n, away) && IsHeader(index, p)
    requires index[p].h.free ==> p in away
    ensures forall i: nat | i < N_LISTS :: p !in lists[i]
  {
    forall i: nat | i < N_LISTS ensures p !in lists[i] {
      Listed(index, heads[i], lists[i], p);
    }
  }

  lemma Listed(index: Index, head: Page, list: seq<Page>, p: Page)
    requires ListOk(index, head, list)
    ensures p in list ==> IsFree(index, p) && p != 0
  {
    if p in list {
      var k: nat :| k < |list| && list[k] == p;
      assert NodeOk(index, list, k);
    }
  }

  /** Changing entries of blocks that are on no list before or after leaves the lists right. */
  lemma ListsChanged(index: Index, index': Index, heads: seq<Page>, bytes: seq<nat>, lists: seq<seq<Page>>, e: Page,
                     n: nat,
                     away: set<Page>, away': set<Page>, changed: set<Page>)
    requires ListsOk(index, heads, bytes, lists, e, n, away)
    requires forall q: Page | q !in changed :: Same(index, index', q)
    requires forall q | q in changed :: (IsFree(index, q) ==> q in away) && (IsFree(index', q) ==> q in away')
    requires forall q: Page | q !in changed :: q in away <==> q in away'
    ensures ListsOk(index', heads, bytes, lists, e, n, away')
  {
    hide ListOk, Total;
    forall i: nat | i < N_LISTS
      ensures ListOk(index', heads[i], lists[i]) && bytes[i] == Total(index', lists[i])
      ensures forall q | q in lists[i] :: IsHeader(index', q) && q !in away' && Home(index', e, n, q) == i
    {
      forall q | q in lists[i]
        ensures IsHeader(index, q) && q !in changed && q !in away' && q in index' && index'[q] == index[q] {
        assert Home(index, e, n, q) == i;
        Listed(index, heads[i], lists[i], q);
        assert Same(index, index', q);
      }
      ListOkFrame(index, index', heads[i], lists[i]);
      TotalFrame(index, index', lists[i]);
    }
    forall q: Page | IsFree(index', q) && q !in away' ensures q in lists[Home(index', e, n, q)] {
      assert q !in changed && Same(index, index', q);
      assert IsFree(index, q) && Home(index, e, n, q) == Home(index', e, n, q);
    }
  }

  // ---- Splitting a listed block ----

  function Replaced(list: seq<Page>, k: nat, m: Page): (r: seq<Page>)
    requires k < |list|
    ensures |r| == |list|
    ensures forall i | 0 <= i < |r| :: r[i] == if i == k then m else list[i]
  {
    list[k := m]
  }

  /** The headers after the upper part of the listed block `p`, from page `m` on, takes its place in
      the list; `p` keeps `size` bytes and is on no list. */
  function Displaced(index: Index, p: Page, m: Page, size: nat): Index
    requires IsHeader(index, p) && size <= index[p].h.sz
  {
    var h := index[p].h;
    var index1 := index[m := Hdr(Header(h.sz - size, true, h.prev, h.next))];
    var index2 := if IsHeader(index1, h.prev) && h.prev != 0
                  then index1[h.prev := Hdr(index1[h.prev].h.(next := m))] else index1;
    var index3 := if IsHeader(index2, h.next) && h.next != 0
                  then index2[h.next := Hdr(index2[h.next].h.(prev := m))] else index2;
    index3[p := Hdr(h.(sz := size))]
  }

  lemma DisplacedAt(index: Index, head: Page, list: seq<Page>, k: nat, m: Page, size: nat, q: Page)
    requires ListOk(index, head, list) && k < |list| && m !in index && m != 0
    requires IsHeader(index, list[k]) && size <= index[list[k]].h.sz
    ensures var p, index' := list[k], Displaced(index, list[k], m, size);
            && (q in index' <==> q in index || q == m)
            && m !in list && index'[m] == Hdr(Header(index[p].h.sz - size, true, At(list, k - 1), At(list, k + 1)))
            && index'[p] == Hdr(index[p].h.(sz := size))
            && (k > 0 && q == list[k - 1] ==> IsHeader(index, q) && index'[q] == Hdr(index[q].h.(next := m)))
            && (k + 1 < |list| && q == list[k + 1] ==> IsHeader(index, q) && index'[q] == Hdr(index[q].h.(prev := m)))
            && (q in index && q != p && (k > 0 ==> q != list[k - 1]) && (k + 1 < |list| ==> q != list[k + 1]) ==>
                  index'[q] == index[q])
  {
    assert NodeOk(index, list, k);
    if k > 0 { assert NodeOk(index, list, k - 1); }
    if k + 1 < |list| { assert NodeOk(index, list, k + 1); }
    Listed(index, head, list, m);
  }

  lemma DisplacedShape(index: Index, head: Page, list: seq<Page>, k: nat, m: Page, size: nat)
    requires ListOk(index, head, list) && k < |list| && m !in index && m != 0
    requires IsHeader(index, list[k]) && size <= index[list[k]].h.sz
    ensures var p, index' := list[k], Displaced(index, list[k], m, size);
            && SameShape(index[p := Hdr(index[p].h.(sz := size))][m :=
              Hdr(Header(index[p].h.sz - size, true, 0, 0))], index')
            && (forall q | q in index && q !in list :: q in index' && index'[q] == index[q])
            && (forall q | q in index :: q in index' && index'[q].Hdr? == index[q].Hdr?)
  {
    hide Displaced;
    var p, index' := list[k], Displaced(index, list[k], m, size);
    assert NodeOk(index, list, k);
    var base := index[p := Hdr(index[p].h.(sz := size))][m := Hdr(Header(index[p].h.sz - size, true, 0, 0))];
    forall q: Page ensures
      && (q in base <==> q in index')
      && (q in index && q !in list ==> index'[q] == index[q])
      && (q in index ==> index'[q].Hdr? == index[q].Hdr?)
      && (q in base ==>
            (base[q].Count? ==> index'[q] == base[q]) &&
            (base[q].Hdr? ==> index'[q].Hdr? && index'[q].h.sz == base[q].h.sz && index'[q].h.free == base[q].h.free))
    {
      DisplacedAt(index, head, list, k, m, size, q);
    }
  }

  lemma DisplacedOk(index: Index, head: Page, list: seq<Page>, k: nat, m: Page, size: nat)
    requires ListOk(index, head, list) && k < |list| && m !in index && m != 0
    requires IsHeader(index, list[k]) && size <= index[list[k]].h.sz
    ensures ListOk(Displaced(index, list[k], m, size), if k == 0 then m else head, Replaced(list, k, m))
  {
    hide Displaced;
    var index', r := Displaced(index, list[k], m, size), Replaced(list, k, m);
    DisplacedAt(index, head, list, k, m, size, m);
    forall i: nat | i < |r| ensures NodeOk(index', r, i) {
      assert NodeOk(index, list, i);
      DisplacedAt(index, head, list, k, m, size, list[i]);
      assert At(r, i - 1) == if i - 1 == k then m else At(list, i - 1);
      assert At(r, i + 1) == if i + 1 == k then m else At(list, i + 1);
    }
  }

  lemma {:induction false} TotalReplace(index: Index, index': Index, list: seq<Page>, k: nat, m: Page)
    requires k < |list| && forall i, j | 0 <= i < j < |list| :: list[i] != list[j]
    requires IsHeader(index, list[k]) && IsHeader(index', m) && index'[m].h.sz <= index[list[k]].h.sz
    requires forall q | q in list && q != list[k] :: IsHeader(index, q) && IsHeader(index', q) &&
               index'[q].h.sz == index[q].h.sz
    ensures Total(index', Replaced(list, k, m)) + index[list[k]].h.sz == Total(index, list) + index'[m].h.sz
  {
    if k == 0 {
      assert Replaced(list, k, m)[1..] == list[1..];
      TotalFrame(index, index', list[1..]);
    } else {
      assert Replaced(list, k, m)[1..] == Replaced(list[1..], k - 1, m);
      assert list[0] in list;
      TotalReplace(index, index', list[1..], k - 1, m);
    }
  }

  /** The lists after a split: the upper part is on the old list, the lower part on none. */
  lemma SplitListsOk(index: Index, heads: seq<Page>, bytes: seq<nat>, lists: seq<seq<Page>>, i: nat, k: nat, m: Page,
                     size: nat)
    requires ListsOk(index, heads, bytes, lists, 0, 0, {}) && i < N_LISTS && k < |lists[i]|
    requires m !in index && m != 0 && IsHeader(index, lists[i][k]) && size <= index[lists[i][k]].h.sz
    ensures var p := lists[i][k];
            && bytes[i] >= size
            && ListsOk(Displaced(index, p, m, size), heads[i := if k == 0 then m else heads[i]],
                       bytes[i := bytes[i] - size], lists[i := Replaced(lists[i], k, m)], m, i, {p})
  {
    hide ListOk, Displaced, Total;
    var p := lists[i][k];
    Listed(index, heads[i], lists[i], p);
    var index', lists' := Displaced(index, p, m, size), lists[i := Replaced(lists[i], k, m)];
    DisplacedShape(index, heads[i], lists[i], k, m, size);
    DisplacedOk(index, heads[i], lists[i], k, m, size);
    ListDistinct(index, heads[i], lists[i]);
    TotalWithout(index, lists[i], k);
    forall j: nat | j < N_LISTS
      ensures ListOk(index', if j == i && k == 0 then m else heads[j], lists'[j])
      ensures Total(index', lists'[j]) == if j == i then bytes[i] - size else bytes[j]
      ensures forall q | q in lists'[j] :: IsHeader(index', q) && q !in {p} && Home(index', m, i, q) == j
    {
      forall q | q in lists'[j] && q != m
        ensures q in lists[j] && q != p && IsHeader(index, q) && IsHeader(index', q) && index'[q].h.sz == index[q].h.sz
      {
        if j == i { InReplaced(lists[i], k, m, q); }
      }
      if j != i {
        forall q | q in lists[j] ensures q != m { assert IsHeader(index, q); }
        ListOkFrame(index, index', heads[j], lists[j]);
        TotalFrame(index, index', lists[j]);
      } else {
        forall q | q in lists[i] && q != p
          ensures IsHeader(index, q) && IsHeader(index', q) && index'[q].h.sz == index[q].h.sz
        {
          Listed(index, heads[i], lists[i], q);
        }
        TotalReplace(index, index', lists[i], k, m);
      }
    }
    forall q: Page | IsFree(index', q) && q !in {p} ensures q in lists'[Home(index', m, i, q)] {
      if q == m {
        assert Replaced(lists[i], k, m)[k] == m;
      } else {
        assert IsFree(index, q);
        KeptByReplace(lists[i], k, m, q);
      }
    }
  }

  lemma ListDistinct(index: Index, head: Page, list: seq<Page>)
    requires ListOk(index, head, list)
    ensures forall i, j | 0 <= i < j < |list| :: list[i] != list[j]
  {
  }

  lemma InReplaced(list: seq<Page>, k: nat, m: Page, q: Page)
    requires k < |list| && forall i, j | 0 <= i < j < |list| :: list[i] != list[j]
    requires q in Replaced(list, k, m) && q != m
    ensures q in list && q != list[k]
  {
  }

  lemma KeptByReplace(list: seq<Page>, k: nat, m: Page, q: Page)
    requires k < |list| && q != list[k]
    ensures q in list ==> q in Replaced(list, k, m)
  {
    if q in list {
      var l :| 0 <= l < |list| && list[l] == q;
      assert Replaced(list, k, m)[l] == q;
    }
  }
}
