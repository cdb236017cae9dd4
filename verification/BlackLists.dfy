/** Black lists (src/gc-7.2/blacklst.c:128-170, 232-310): the pages whose addresses were seen as
    false pointers, in hash tables of bits; each table is the set of its set bits. */
module BlackLists {
  import opened HeaderIndex

  const PHT_ENTRIES := 65536

  function Hash(p: Page): nat {
    p % PHT_ENTRIES
  }

  class BlackLists {
    var oldNormal: set<nat>
    var incompleteNormal: set<nat>
    var oldStack: set<nat>
    var incompleteStack: set<nat>
    var spacing: nat
    const allInteriorPointers: bool

    constructor (allInteriorPointers: bool)
      ensures this.allInteriorPointers == allInteriorPointers
      ensures forall h: Page, n: nat :: !BlackListed(h, n)
    {
      oldNormal, incompleteNormal, oldStack, incompleteStack, spacing := {}, {}, {}, {}, 0;
      this.allInteriorPointers := allInteriorPointers;
    }

    predicate OnStackList(q: Page)
      reads this
    {
      Hash(q) in oldStack || Hash(q) in incompleteStack
    }

    predicate OnNormalList(q: Page)
      reads this
    {
      !allInteriorPointers && (Hash(q) in oldNormal || Hash(q) in incompleteNormal)
    }

    /** A block of `n` pages at `h` must not be handed out: its first page is on a normal list, or one
        of its pages is on a stack list. Even an empty block counts its first page. */
    ghost predicate BlackListed(h: Page, n: nat)
      reads this
    {
      OnNormalList(h) || exists q: Page :: h <= q < h + (if n == 0 then 1 else n) && OnStackList(q)
    }

    /** Is a word of the bit tables zero? */
    predicate WordClear(word: nat)
      reads this
    {
      forall i | 64 * word <= i < 64 * word + 64 :: i !in oldStack && i !in incompleteStack
    }

    /** `GC_is_black_listed`: null if the block may be handed out; otherwise the next place to look,
        and every place before it is black listed too. */
    method IsBlackListed(h: Page, n: nat) returns (r: Page)
      ensures r == 0 <==> !BlackListed(h, n)
      ensures r != 0 ==> h < r <= h + (if n == 0 then 1 else n)
      ensures forall x | h <= x < r :: BlackListed(x, n)
    {
      if OnNormalList(h) { return h + 1; }
      var i := 0;
      while true
        invariant i == 0 || i < n
        invariant forall q: Page | h <= q < h + i :: !OnStackList(q)
        decreases n - i
      {
        var index := Hash(h + i);
        if WordClear(index / 64) {
          SameWord(h + i);
          i := i + (64 - index % 64);
        } else {
          if OnStackList(h + i) { return h + i + 1; }
          i := i + 1;
        }
        if i >= n { break; }
      }
      return 0;
    }

    /** Clear words hide no listed page up to the end of the word. */
    lemma SameWord(q: Page)
      requires WordClear(Hash(q) / 64)
      ensures forall x: Page | q <= x < q + (64 - Hash(q) % 64) :: !OnStackList(x)
    {
      forall x: Page | q <= x < q + (64 - Hash(q) % 64) ensures !OnStackList(x) {
        HashSteps(q, x - q);
      }
    }

    /** `GC_promote_black_lists`: the lists of this collection become the old ones and new ones start
        empty. `heapSize` and `listed` are the bytes of the heap and of its listed pages: the spacing is
        the mean distance of listed pages, kept between three pages and 2048, and that of the last
        collection where no page is listed. */
    method Promote(heapSize: nat, listed: nat)
      modifies this
      ensures oldStack == old(incompleteStack) && incompleteStack == {}
      ensures oldNormal == old(incompleteNormal)
      ensures incompleteNormal == if allInteriorPointers then old(oldNormal) else {}
      ensures 3 * 4096 <= spacing <= 2048 * 4096
      ensures var mean := if listed != 0 then 4096 * (heapSize / listed) else old(spacing);
              && (3 * 4096 <= mean <= 2048 * 4096 ==> spacing == mean)
              && (mean < 3 * 4096 ==> spacing == 3 * 4096) && (mean > 2048 * 4096 ==> spacing == 2048 * 4096)
    {
      var veryOldNormal := oldNormal;
      oldNormal := incompleteNormal;
      oldStack := incompleteStack;
      incompleteNormal := if allInteriorPointers then veryOldNormal else {};
      incompleteStack := {};
      if listed != 0 { spacing := 4096 * (heapSize / listed); }
      if spacing < 3 * 4096 { spacing := 3 * 4096; }
      if spacing > 2048 * 4096 { spacing := 2048 * 4096; }
    }
  }

  lemma HashSteps(q: Page, d: nat)
    requires d < 64 - Hash(q) % 64
    ensures Hash(q + d) == Hash(q) + d && Hash(q + d) / 64 == Hash(q) / 64
  {
  }
}
