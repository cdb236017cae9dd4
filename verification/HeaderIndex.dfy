/** The index from heap pages to block headers (src/gc-7.2/headers.c:190-403). Addresses are page
    numbers, so a page is one heap block of HBLKSIZE = 4096 bytes and page 0 is the null pointer. A
    bottom index holds BOTTOM_SZ = 1024 entries. */
module HeaderIndex {

  type Page = nat

  const MAX_JUMP := 4095

  /** The part of a header the block allocator uses: `hb_sz` in bytes, the FREE_BLK flag, and the
      links of the free list. */
  datatype Header = Header(sz: nat, free: bool, prev: Page, next: Page)

  /** An index entry that is not nil: a header, or a forwarding count. */
  datatype Entry = Hdr(h: Header) | Count(n: nat)

  type Index = map<Page, Entry>

  /** `OBJ_SZ_TO_BLOCKS` */
  function Blocks(sz: nat): nat {
    (sz + 4095) / 4096
  }

  predicate IsHeader(index: Index, p: Page) {
    p in index && index[p].Hdr?
  }

  predicate IsFree(index: Index, p: Page) {
    IsHeader(index, p) && index[p].h.free
  }

  predicate IsUsed(index: Index, p: Page) {
    IsHeader(index, p) && !index[p].h.free
  }

  function SizeOf(index: Index, p: Page): nat
    requires IsHeader(index, p)
  {
    Blocks(index[p].h.sz)
  }

  /** Page `q` lies in the block that starts at `p`. */
  predicate Covers(index: Index, p: Page, q: Page) {
    IsHeader(index, p) && p <= q < p + SizeOf(index, p)
  }

  /** The forwarding count of the page at distance `i` from the start of its block. */
  function Jump(i: nat): nat {
    if i > MAX_JUMP then MAX_JUMP else i
  }

  /** What the index must say of page `q`, whose block starts at `p`. */
  predicate EntryRight(index: Index, p: Page, q: Page)
    requires IsHeader(index, p)
  {
    if q == p then true
    else if index[p].h.free then q !in index
    else q in index && q > p && index[q] == Count(Jump(q - p))
  }

  /** Page `q` lies in exactly one block, `owner` gives its start, and the index says the right thing
      of it: inside a used block a forwarding count. */
  ghost predicate TiledAt(index: Index, owner: map<Page, Page>, q: Page) {
    && (q in owner ==> q >= 2 && Covers(index, owner[q], q) && EntryRight(index, owner[q], q))
    && (q in index ==> q in owner)
    && (IsHeader(index, q) ==> SizeOf(index, q) > 0 && (index[q].h.free ==> index[q].h.sz % 4096 == 0))
  }

  ghost predicate CoverRight(index: Index, owner: map<Page, Page>, p: Page, q: Page) {
    Covers(index, p, q) ==> q in owner && owner[q] == p
  }

  /** The blocks tile the heap, whose pages are the keys of `owner`. */
  ghost predicate Tiled(index: Index, owner: map<Page, Page>) {
    && (forall q: Page :: TiledAt(index, owner, q))
    && (forall p: Page, q: Page :: CoverRight(index, owner, p, q))
  }

  /** A header is the start of its own block, and a count stands inside a used one. */
  lemma TiledEntry(index: Index, owner: map<Page, Page>, q: Page)
    requires Tiled(index, owner) && q in index
    ensures q in owner && q >= 2 && (index[q].Hdr? <==> owner[q] == q)
    ensures index[q].Count? ==> IsUsed(index, owner[q]) && owner[q] < q && index[q].n == Jump(q - owner[q])
    ensures index[q].Hdr? ==> SizeOf(index, q) > 0 && (index[q].h.free ==> index[q].h.sz % 4096 == 0)
  {
    assert TiledAt(index, owner, q);
    assert CoverRight(index, owner, q, q);
  }

  /** The block a heap page lies in. */
  lemma TiledOwner(index: Index, owner: map<Page, Page>, q: Page)
    requires Tiled(index, owner) && q in owner
    ensures q >= 2 && Covers(index, owner[q], q) && EntryRight(index, owner[q], q)
    ensures owner[q] in owner && owner[owner[q]] == owner[q]
  {
    assert TiledAt(index, owner, q);
    assert TiledAt(index, owner, owner[q]);
    assert CoverRight(index, owner, owner[q], owner[q]);
  }

  /** A page covered by a block is owned by it, so blocks do not overlap. */
  lemma CoveredOwned(index: Index, owner: map<Page, Page>, p: Page, q: Page)
    requires Tiled(index, owner) && Covers(index, p, q)
    ensures q in owner && owner[q] == p && EntryRight(index, p, q)
  {
    assert CoverRight(index, owner, p, q);
    assert TiledAt(index, owner, q);
  }

  /** The entry of page `q` is unchanged. */
  ghost predicate Same(index: Index, index': Index, q: Page) {
    (q in index <==> q in index') && (q in index ==> index[q] == index'[q])
  }

  // ---- Forwarding counts ----

  /** Follow forwarding counts down from page `q`. */
  function Follow(index: Index, q: Page): Page
    decreases q
  {
    if q in index && index[q].Count? && 0 < index[q].n <= q then Follow(index, q - index[q].n) else q
  }

  /** From any page of a used block the counts lead to its header, never below it. */
  lemma {:induction false} FollowReachesHeader(index: Index, owner: map<Page, Page>, q: Page)
    requires Tiled(index, owner) && q in index
    ensures q in owner && Follow(index, q) == owner[q]
    decreases q
  {
    TiledEntry(index, owner, q);
    if index[q].Count? {
      var p, q' := owner[q], q - index[q].n;
      TiledOwner(index, owner, q);
      CoveredOwned(index, owner, p, q');
      FollowReachesHeader(index, owner, q');
    }
  }

  /** A count jumps over no header. */
  lemma CountSkips(index: Index, owner: map<Page, Page>, q: Page, x: Page)
    requires Tiled(index, owner) && q in index && index[q].Count?
    requires IsHeader(index, x) && x <= q
    ensures x <= q - index[q].n
  {
    TiledEntry(index, owner, q);
    TiledEntry(index, owner, x);
    TiledOwner(index, owner, q);
    if x > owner[q] { CoveredOwned(index, owner, owner[q], x); }
  }

  // ---- The two-level table ----

  /** The keys of the bottom indices, in the order of their links. */
  ghost predicate Sorted(keys: seq<nat>) {
    forall i, j | 0 <= i < j < |keys| :: keys[i] < keys[j]
  }

  class HeaderTable {
    var index: Index
    var keys: seq<nat>

    constructor ()
      ensures index == map[] && keys == [] && Indexed()
    {
      index, keys := map[], [];
    }

    /** Every entry lies in a bottom index on the list. */
    ghost predicate Indexed()
      reads this
    {
      Sorted(keys) && forall q | q in index :: q / 1024 in keys
    }

    /** `get_index`: the bottom index for a page, linked in at its place in key order. */
    method GetIndex(page: Page)
      requires Indexed()
      modifies this`keys
      ensures Indexed() && page / 1024 in keys
      ensures forall k :: k in keys <==> k in old(keys) || k == page / 1024
    {
      var hi := page / 1024;
      if hi in keys { return; }
      var i := 0;
      while i < |keys| && keys[i] < hi
        invariant 0 <= i <= |keys|
        invariant forall j | 0 <= j < i :: keys[j] < hi
      {
        i := i + 1;
      }
      ghost var before := keys;
      keys := keys[..i] + [hi] + keys[i..];
      KeyInserted(before, i, hi, keys);
    }

    /** `GC_install_header` */
    method InstallHeader(p: Page, h: Header)
      requires Indexed()
      modifies this
      ensures Indexed() && index == old(index)[p := Hdr(h)]
    {
      GetIndex(p);
      index := index[p := Hdr(h)];
    }

    /** `GC_remove_header` */
    method RemoveHeader(p: Page)
      requires Indexed()
      modifies this`index
      ensures Indexed() && index == old(index) - {p}
    {
      index := index - {p};
    }

    /** `GC_install_counts`: forwarding counts for a block of `n` pages. */
    method InstallCounts(p: Page, n: nat)
      requires Indexed() && n > 0
      modifies this
      ensures Indexed() && index == WithCounts(old(index), p, n)
    {
      CoverPages(p, n);
      FillCounts(p, n);
    }

    /** The first loop: a bottom index for every page of the block. */
    method CoverPages(p: Page, n: nat)
      requires Indexed() && n > 0
      modifies this`keys
      ensures Indexed() && forall k | p / 1024 <= k <= (p + n - 1) / 1024 :: k in keys
    {
      var i := 0;
      while i < n
        invariant Indexed() && i % 1024 == 0
        invariant forall k | p / 1024 <= k < p / 1024 + i / 1024 :: k in keys
        decreases n + 1024 - i
      {
        GetIndex(p + i);
        i := i + 1024;
      }
      GetIndex(p + n - 1);
    }

    /** The second loop: the counts. */
    method FillCounts(p: Page, n: nat)
      requires Indexed() && n > 0 && forall k | p / 1024 <= k <= (p + n - 1) / 1024 :: k in keys
      modifies this`index
      ensures Indexed() && index == WithCounts(old(index), p, n)
    {
      var q := p + 1;
      while q < p + n
        invariant p < q <= p + n
        invariant Indexed() && index == WithCounts(old(index), p, q - p)
      {
        KeyBetween(p, q, p + n - 1);
        assert q / 1024 in keys;
        index := index[q := Count(Jump(q - p))];
        q := q + 1;
      }
    }

    lemma KeyBetween(p: Page, q: Page, last: Page)
      requires p <= q <= last
      ensures p / 1024 <= q / 1024 <= last / 1024
    {
    }

    /** `GC_remove_counts` */
    method RemoveCounts(p: Page, n: nat)
      requires Indexed() && n > 0
      modifies this`index
      ensures Indexed() && index == WithoutCounts(old(index), p, n)
    {
      var q := p + 1;
      while q < p + n
        invariant p < q <= p + n
        invariant Indexed() && index == WithoutCounts(old(index), p, q - p)
      {
        index := index - {q};
        q := q + 1;
      }
    }

    /** Every header at or below `h` lies at or below `cur`. */
    ghost predicate NoneAbove(h: Page, cur: int)
      reads this
    {
      forall x: Page | IsHeader(index, x) && x <= h :: x <= cur
    }

    /** `GC_prev_block`: the last block that starts at or before `h`. */
    method PrevBlock(h: Page, ghost owner: map<Page, Page>) returns (p: Page)
      requires Indexed() && Tiled(index, owner)
      ensures p != 0 ==> IsHeader(index, p) && p <= h
      ensures NoneAbove(h, p)
    {
      hide NoneAbove, Tiled;
      var hi := h / 1024;
      var b := |keys| - 1;
      while b >= 0 && keys[b] > hi
        invariant -1 <= b < |keys|
        invariant forall i | b < i < |keys| :: keys[i] > hi
      {
        b := b - 1;
      }
      var j: int := if b >= 0 && keys[b] == hi then h % 1024 else 1023;
      BelowKeys(h, b, j);
      while b >= 0
        invariant -1 <= b < |keys| && j < 1024
        invariant b >= 0 ==> keys[b] <= hi && keys[b] * 1024 + j <= h
        invariant NoneAbove(h, if b >= 0 then keys[b] * 1024 + j else -1)
        decreases b, j
      {
        if j < 0 {
          NextLower(h, b, j);
          b, j := b - 1, 1023;
        } else {
          var q := keys[b] * 1024 + j;
          if q in index && index[q].Hdr? {
            NoneAboveWeaker(h, q, q);
            return q;
          }
          EntrySkips(h, q, owner);
          j := if q in index then j - index[q].n else j - 1;
        }
      }
      NoneAboveWeaker(h, -1, 0);
      p := 0;
    }

    lemma NoneAboveWeaker(h: Page, cur: int, cur': int)
      requires NoneAbove(h, cur) && cur <= cur'
      ensures NoneAbove(h, cur')
    {
    }

    /** Neither a nil entry nor a count jumps over a header. */
    lemma EntrySkips(h: Page, q: Page, owner: map<Page, Page>)
      requires Tiled(index, owner) && !IsHeader(index, q) && NoneAbove(h, q) && q <= h
      ensures NoneAbove(h, if q in index then q - index[q].n else q - 1)
      ensures q in index ==> index[q].n > 0
    {
      if q in index {
        TiledEntry(index, owner, q);
        forall x: Page | IsHeader(index, x) && x <= h ensures x <= q - index[q].n { CountSkips(index, owner, q, x); }
      }
    }

    /** All headers at or below `h` lie at or below the place the search starts from. */
    lemma BelowKeys(h: Page, b: int, j: int)
      requires Indexed() && -1 <= b < |keys|
      requires forall i | b < i < |keys| :: keys[i] > h / 1024
      requires b >= 0 ==> keys[b] <= h / 1024
      requires j == if b >= 0 && keys[b] == h / 1024 then h % 1024 else 1023
      ensures NoneAbove(h, if b >= 0 then keys[b] * 1024 + j else -1)
    {
      forall x: Page | IsHeader(index, x) && x <= h ensures x <= if b >= 0 then keys[b] * 1024 + j else -1 {
        var i :| 0 <= i < |keys| && keys[i] == x / 1024;
        assert i <= b;
        assert keys[i] <= keys[b];
      }
    }

    /** Below a bottom index the next candidates lie in the one before it. */
    lemma NextLower(h: Page, b: nat, j: int)
      requires Indexed() && b < |keys| && j < 0
      requires NoneAbove(h, keys[b] * 1024 + j) && keys[b] <= h / 1024
      ensures NoneAbove(h, if b > 0 then keys[b - 1] * 1024 + 1023 else -1)
      ensures b > 0 ==> keys[b - 1] * 1024 + 1023 <= h
    {
      forall x: Page | IsHeader(index, x) && x <= h ensures x <= if b > 0 then keys[b - 1] * 1024 + 1023 else -1 {
        var i :| 0 <= i < |keys| && keys[i] == x / 1024;
        assert keys[i] < keys[b];
        assert i < b;
        assert keys[i] <= keys[b - 1];
      }
    }

    /** `GC_apply_to_all_blocks`: the used blocks in the order they are visited, each once. */
    method ApplyToAllBlocks(ghost owner: map<Page, Page>) returns (visited: seq<Page>)
      requires Indexed() && Tiled(index, owner)
      ensures forall i, j | 0 <= i < j < |visited| :: visited[i] != visited[j]
      ensures forall p: Page :: p in visited <==> IsUsed(index, p)
    {
      hide Visited, Tiled;
      visited := [];
      var b := 0;
      NothingVisited();
      while b < |keys|
        invariant 0 <= b <= |keys|
        invariant Visited(visited, b, 1023)
      {
        var j := 1023;
        while j >= 0
          invariant j < 1024
          invariant Visited(visited, b, j)
        {
          var q := keys[b] * 1024 + j;
          if q in index && index[q].Hdr? {
            VisitHeader(visited, b, j);
            if !index[q].h.free { visited := visited + [q]; }
            j := j - 1;
          } else {
            VisitNothing(visited, b, j, owner);
            j := if q in index then j - index[q].n else j - 1;
          }
        }
        NextKey(visited, b, j);
        b := b + 1;
      }
      AllVisited(visited);
    }

    /** The used blocks visited once the bottom index at `b` is scanned down to entry `j`. */
    ghost predicate Visited(visited: seq<Page>, b: nat, j: int)
      reads this
    {
      && (forall i, k | 0 <= i < k < |visited| :: visited[i] != visited[k])
      && (forall p | p in visited :: IsUsed(index, p))
      && (forall p: Page | IsUsed(index, p) :: p in visited <==> Scanned(p, b, j))
    }

    ghost predicate Scanned(p: Page, b: nat, j: int)
      reads this
    {
      exists i :: 0 <= i < |keys| && keys[i] == p / 1024 && (i < b || (i == b && p > keys[b] * 1024 + j))
    }

    lemma ScannedAt(p: Page, b: nat, j: int, i: nat)
      requires Indexed() && i < |keys| && keys[i] == p / 1024
      ensures Scanned(p, b, j) <==> i < b || (i == b && p > keys[b] * 1024 + j)
    {
    }

    lemma NothingVisited()
      ensures Visited([], 0, 1023)
    {
    }

    lemma VisitHeader(visited: seq<Page>, b: nat, j: nat)
      requires Indexed() && b < |keys| && j < 1024 && Visited(visited, b, j)
      requires IsHeader(index, keys[b] * 1024 + j)
      ensures var q := keys[b] * 1024 + j;
              Visited(if index[q].h.free then visited else visited + [q], b, j - 1)
    {
      hide Scanned, Indexed;
      var q := keys[b] * 1024 + j;
      var next := if index[q].h.free then visited else visited + [q];
      var i := KeyOf(q);
      KeysApart(i, b);
      ScannedAt(q, b, j, b);
      forall p: Page | IsUsed(index, p) ensures p in next <==> Scanned(p, b, j - 1) {
        var i := KeyOf(p);
        ScannedAt(p, b, j, i);
        ScannedAt(p, b, j - 1, i);
        if p == q { KeysApart(i, b); }
      }
    }

    lemma KeysApart(i: nat, b: nat)
      requires Indexed() && i < |keys| && b < |keys| && keys[i] == keys[b]
      ensures i == b
    {
    }

    /** Where the scan goes on after an entry that is no header. */
    ghost function After(q: Page): int
      reads this
    {
      if q in index && index[q].Count? then q - index[q].n else q - 1
    }

    lemma VisitNothing(visited: seq<Page>, b: nat, j: nat, owner: map<Page, Page>)
      requires Indexed() && b < |keys| && j < 1024 && Visited(visited, b, j) && Tiled(index, owner)
      requires !IsHeader(index, keys[b] * 1024 + j)
      ensures After(keys[b] * 1024 + j) < keys[b] * 1024 + j
      ensures Visited(visited, b, After(keys[b] * 1024 + j) - keys[b] * 1024)
    {
      hide Tiled, Scanned, Indexed;
      var q := keys[b] * 1024 + j;
      if q in index { TiledEntry(index, owner, q); }
      var j' := After(q) - keys[b] * 1024;
      forall p: Page | IsUsed(index, p) ensures p in visited <==> Scanned(p, b, j') {
        var i := KeyOf(p);
        ScannedAt(p, b, j, i);
        ScannedAt(p, b, j', i);
        if q in index && p <= q { CountSkips(index, owner, q, p); }
      }
    }

    lemma KeyOf(p: Page) returns (i: nat)
      requires Indexed() && p in index
      ensures i < |keys| && keys[i] == p / 1024
    {
      i :| i < |keys| && keys[i] == p / 1024;
    }

    lemma NextKey(visited: seq<Page>, b: nat, j: int)
      requires Indexed() && b < |keys| && Visited(visited, b, j) && j < 0
      ensures Visited(visited, b + 1, 1023)
    {
      forall p: Page | IsUsed(index, p) ensures p in visited <==> Scanned(p, b + 1, 1023) {
        var i := KeyOf(p);
        ScannedAt(p, b, j, i);
        ScannedAt(p, b + 1, 1023, i);
      }
    }

    lemma AllVisited(visited: seq<Page>)
      requires Indexed() && Visited(visited, |keys|, 1023)
      ensures forall i, k | 0 <= i < k < |visited| :: visited[i] != visited[k]
      ensures forall p: Page :: p in visited <==> IsUsed(index, p)
    {
      forall p: Page | IsUsed(index, p) ensures p in visited {
        var i := KeyOf(p);
        ScannedAt(p, |keys|, 1023, i);
      }
    }
  }

  function WithCounts(index: Index, p: Page, n: nat): Index
    requires n > 0
  {
    if n == 1 then index else WithCounts(index, p, n - 1)[p + n - 1 := Count(Jump(n - 1))]
  }

  function WithoutCounts(index: Index, p: Page, n: nat): Index
    requires n > 0
  {
    if n == 1 then index else WithoutCounts(index, p, n - 1) - {p + n - 1}
  }

  lemma {:induction false} WithCountsAt(index: Index, p: Page, n: nat, q: Page)
    requires n > 0
    ensures p < q < p + n ==> q in WithCounts(index, p, n) && WithCounts(index, p, n)[q] == Count(Jump(q - p))
    ensures !(p < q < p + n) ==> (q in WithCounts(index, p, n) <==> q in index)
    ensures !(p < q < p + n) && q in index ==> WithCounts(index, p, n)[q] == index[q]
  {
    if n > 1 { WithCountsAt(index, p, n - 1, q); }
  }

  lemma {:induction false} WithoutCountsAt(index: Index, p: Page, n: nat, q: Page)
    requires n > 0
    ensures q in WithoutCounts(index, p, n) <==> q in index && !(p < q < p + n)
    ensures q in WithoutCounts(index, p, n) ==> WithoutCounts(index, p, n)[q] == index[q]
  {
    if n > 1 { WithoutCountsAt(index, p, n - 1, q); }
  }

  lemma KeyInserted(before: seq<nat>, i: nat, hi: nat, after: seq<nat>)
    requires Sorted(before) && i <= |before| && hi !in before
    requires forall j | 0 <= j < i :: before[j] < hi
    requires i < |before| ==> before[i] >= hi
    requires after == before[..i] + [hi] + before[i..]
    ensures Sorted(after) && hi in after && forall k :: k in after <==> k in before || k == hi
  {
    assert after[i] == hi;
    forall j, k | 0 <= j < k < |after| ensures after[j] < after[k] {
      InsertedAt(before, i, hi, after, j);
      InsertedAt(before, i, hi, after, k);
    }
    InsertedKeys(before, i, hi, after);
  }

  lemma InsertedAt(before: seq<nat>, i: nat, hi: nat, after: seq<nat>, j: nat)
    requires i <= |before| && after == before[..i] + [hi] + before[i..] && j < |after|
    ensures after[j] == if j < i then before[j] else if j == i then hi else before[j - 1]
  {
  }

  lemma InsertedKeys(before: seq<nat>, i: nat, hi: nat, after: seq<nat>)
    requires i <= |before| && after == before[..i] + [hi] + before[i..]
    ensures forall k :: k in after <==> k in before || k == hi
  {
    assert before == before[..i] + before[i..];
  }
}
