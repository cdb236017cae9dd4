/** The collector's hash tables of chained entries (src/gc-7.2/finalize.c:33-48, 95-134): a table of
    chain heads whose size is a power of two, doubled by rehashing every chain. */
module HashChains {
  import opened Bits
  import opened Marking

  type Word = w: nat | w <= 0xFFFF_FFFF_FFFF_FFFF

  /** `GC_HIDE_POINTER`, its own inverse: the bitwise complement of a word. */
  function Hide(p: Word): Word {
    0xFFFF_FFFF_FFFF_FFFF - p
  }

  /** `HASH2(addr, log)` */
  function Hash(addr: Word, log: nat): (i: nat)
    ensures i < Pow2(log)
  {
    Low(Xor(Shr(addr, 3), Shr(addr, 3 + log)), log)
  }

  /** What an entry says about the object or link it is filed under. */
  datatype Info = LinkTo(hiddenObj: Word) | Finalizer(fn: Word, clientData: Word, size: nat, proc: MarkProc)

  class Entry {
    var key: Word
    var next: Entry?
    var info: Info

    constructor (key: Word, info: Info)
      ensures this.key == key && this.info == info && next == null
    {
      this.key, this.info, next := key, info, null;
    }
  }

  function At(chain: seq<Entry>, k: int): Entry? {
    if 0 <= k < |chain| then chain[k] else null
  }

  /** The list that starts at `head` has the entries of `chain`, in order and once each. */
  ghost predicate Chained(head: Entry?, chain: seq<Entry>)
    reads (set e | e in chain)`next
  {
    head == At(chain, 0) && Once(chain) && forall k | 0 <= k < |chain| :: chain[k].next == At(chain, k + 1)
  }

  ghost predicate Once(chain: seq<Entry>) {
    forall k, l | 0 <= k < l < |chain| :: chain[k] != chain[l]
  }

  lemma ChainedLinks(head: Entry?, chain: seq<Entry>)
    requires Chained(head, chain)
    ensures head == At(chain, 0) && Once(chain) && forall k | 0 <= k < |chain| :: chain[k].next == At(chain, k + 1)
  {
  }

  /** The entry before the one at `k` points past it. */
  lemma Bypassed(head: Entry?, chain: seq<Entry>, k: nat)
    requires 0 < k < |chain| && Once(chain) && head == At(chain, 0)
    requires forall l | 0 <= l < |chain| && l != k - 1 :: chain[l].next == At(chain, l + 1)
    requires chain[k - 1].next == At(chain, k + 1)
    ensures Chained(head, Without(chain, k))
  {
  }

  /** The entries are filed under the hash of their keys. */
  ghost predicate Filed(chain: seq<Entry>, log: nat, i: int)
    reads (set e | e in chain)`key
  {
    forall k | 0 <= k < |chain| :: Hash(Hide(chain[k].key), log) == i
  }

  lemma ChainedPushed(head: Entry?, chain: seq<Entry>, e: Entry)
    requires Chained(head, chain) && e.next == head && e !in chain
    ensures Chained(e, [e] + chain)
  {
  }

  lemma FiledPushed(chain: seq<Entry>, e: Entry, log: nat, i: int)
    requires Filed(chain, log, i) && Hash(Hide(e.key), log) == i
    ensures Filed([e] + chain, log, i)
  {
  }

  lemma ChainedTail(head: Entry?, chain: seq<Entry>)
    requires Chained(head, chain) && chain != []
    ensures Chained(chain[0].next, Without(chain, 0))
  {
  }

  lemma OnceWithout(chain: seq<Entry>, k: nat)
    requires Once(chain) && k < |chain|
    ensures Once(Without(chain, k))
    ensures forall l | 0 <= l < |chain| && l != k - 1 :: k == 0 || chain[l] != chain[k - 1]
  {
  }

  lemma FiledWithout(chain: seq<Entry>, k: nat, log: nat, i: int)
    requires Filed(chain, log, i) && k < |chain|
    ensures Filed(Without(chain, k), log, i)
  {
  }

  ghost function All(chains: seq<seq<Entry>>): set<Entry> {
    set i, k | 0 <= i < |chains| && 0 <= k < |chains[i]| :: chains[i][k]
  }

  /** No entry is on two chains. */
  ghost predicate Apart(chains: seq<seq<Entry>>) {
    forall i, j, k, l | 0 <= i < j < |chains| && 0 <= k < |chains[i]| && 0 <= l < |chains[j]| ::
      chains[i][k] != chains[j][l]
  }

  function Without(chain: seq<Entry>, k: nat): (r: seq<Entry>)
    requires k < |chain|
    ensures |r| == |chain| - 1
    ensures forall l | 0 <= l < |r| :: r[l] == if l < k then chain[l] else chain[l + 1]
  {
    chain[..k] + chain[k + 1..]
  }

  // ---- Chains as sets ----

  lemma AllAt(chains: seq<seq<Entry>>, e: Entry)
    ensures e in All(chains) <==> exists i :: 0 <= i < |chains| && e in chains[i]
  {
    if e in All(chains) {
      var i, k :| 0 <= i < |chains| && 0 <= k < |chains[i]| && chains[i][k] == e;
      assert e in chains[i];
    }
  }

  lemma Listed(chains: seq<seq<Entry>>, i: nat)
    requires i < |chains|
    ensures forall k | 0 <= k < |chains[i]| :: chains[i][k] in All(chains)
  {
  }

  lemma NotListed(chains: seq<seq<Entry>>, e: Entry)
    requires e !in All(chains)
    ensures forall i | 0 <= i < |chains| :: e !in chains[i]
  {
  }

  lemma Elsewhere(chains: seq<seq<Entry>>, i: nat, e: Entry)
    requires i < |chains| && Apart(chains) && e in chains[i]
    ensures forall j | 0 <= j < |chains| && j != i :: e !in chains[j]
  {
  }

  lemma WithoutAll(chains: seq<seq<Entry>>, i: nat, k: nat)
    requires i < |chains| && k < |chains[i]| && Apart(chains) && Once(chains[i])
    ensures All(chains[i := Without(chains[i], k)]) == All(chains) - {chains[i][k]}
    ensures Apart(chains[i := Without(chains[i], k)])
  {
    var e, chains' := chains[i][k], chains[i := Without(chains[i], k)];
    forall x ensures x in All(chains') <==> x in All(chains) - {e} {
      if x in All(chains') {
        var j, l :| 0 <= j < |chains'| && 0 <= l < |chains'[j]| && chains'[j][l] == x;
        var l0 := if j == i && l >= k then l + 1 else l;
        assert chains[j][l0] == x;
      }
      if x in All(chains) && x != e {
        var j, l :| 0 <= j < |chains| && 0 <= l < |chains[j]| && chains[j][l] == x;
        var l1 := if j == i && l > k then l - 1 else l;
        assert chains'[j][l1] == x;
      }
    }
  }

  lemma PushedAll(chains: seq<seq<Entry>>, i: nat, e: Entry)
    requires i < |chains| && Apart(chains) && e !in All(chains)
    ensures All(chains[i := [e] + chains[i]]) == All(chains) + {e} && Apart(chains[i := [e] + chains[i]])
  {
    var chains' := chains[i := [e] + chains[i]];
    forall x ensures x in All(chains') <==> x in All(chains) + {e} {
      if x in All(chains') {
        var j, l :| 0 <= j < |chains'| && 0 <= l < |chains'[j]| && chains'[j][l] == x;
        if j != i { assert chains[j][l] == x; } else if l > 0 { assert chains[j][l - 1] == x; }
      }
      if x in All(chains) {
        var j, l :| 0 <= j < |chains| && 0 <= l < |chains[j]| && chains[j][l] == x;
        assert chains'[j][if j == i then l + 1 else l] == x;
      }
      if x == e { assert chains'[i][0] == x; }
    }
    forall j | 0 <= j < |chains| ensures e !in chains[j] {}
  }

  /** The entries from position `k` of chain `i` on. */
  ghost function Rest(chains: seq<seq<Entry>>, i: nat, k: nat): set<Entry>
    requires i < |chains| ==> k <= |chains[i]|
  {
    if i >= |chains| then {} else (set e | e in chains[i][k..]) + All(chains[i + 1..])
  }

  lemma RestNext(chains: seq<seq<Entry>>, i: nat, k: nat)
    requires i < |chains| && k < |chains[i]| && Apart(chains) && Once(chains[i])
    ensures Rest(chains, i, k) == {chains[i][k]} + Rest(chains, i, k + 1) && chains[i][k] !in Rest(chains, i, k + 1)
    ensures chains[i][k] in All(chains) && chains[i][k] !in chains[i][k + 1..]
    ensures forall j | i < j < |chains| :: chains[i][k] !in chains[j]
  {
    var e := chains[i][k];
    assert chains[i][k..] == [e] + chains[i][k + 1..];
    Listed(chains, i);
    AllAt(chains[i + 1..], e);
  }

  lemma RestListed(chains: seq<seq<Entry>>, i: nat, k: nat)
    requires i < |chains| && k <= |chains[i]|
    ensures Rest(chains, i, k) <= All(chains)
  {
    forall e | e in All(chains[i + 1..]) ensures e in All(chains) {
      AllAt(chains[i + 1..], e);
      var j :| 0 <= j < |chains[i + 1..]| && e in chains[i + 1..][j];
      assert e in chains[i + 1 + j];
      AllAt(chains, e);
    }
    Listed(chains, i);
  }

  lemma RestWithout(chains: seq<seq<Entry>>, i: nat, k: nat)
    requires i < |chains| && k < |chains[i]|
    ensures Rest(chains[i := Without(chains[i], k)], i, k) == Rest(chains, i, k + 1)
  {
    var chains' := chains[i := Without(chains[i], k)];
    assert chains'[i][k..] == chains[i][k + 1..];
    assert chains'[i + 1..] == chains[i + 1..];
  }

  lemma RestEnd(chains: seq<seq<Entry>>, i: nat)
    requires i < |chains|
    ensures Rest(chains, i, |chains[i]|) == Rest(chains, i + 1, 0)
  {
    var tail := chains[i + 1..];
    forall e ensures e in All(tail) <==> e in Rest(chains, i + 1, 0) {
      RestFrom(chains, i + 1, e);
    }
  }

  lemma NoRest(chains: seq<seq<Entry>>)
    ensures Rest(chains, |chains|, 0) == {}
  {
  }

  lemma RestFrom(chains: seq<seq<Entry>>, i: nat, e: Entry)
    requires i <= |chains|
    ensures e in All(chains[i..]) <==> e in Rest(chains, i, 0)
  {
    AllAt(chains[i..], e);
    if i < |chains| {
      var tail := chains[i + 1..];
      AllAt(tail, e);
      assert forall j | 0 <= j < |tail| :: tail[j] == chains[i..][j + 1];
      assert forall j | 0 < j < |chains[i..]| :: chains[i..][j] == tail[j - 1];
      assert chains[i][0..] == chains[i] == chains[i..][0];
    }
  }

  lemma RestAll(chains: seq<seq<Entry>>)
    ensures Rest(chains, 0, 0) == All(chains)
  {
    forall e ensures e in All(chains) <==> e in Rest(chains, 0, 0) {
      RestFrom(chains, 0, e);
      assert chains[0..] == chains;
    }
  }

  lemma Handed(taken: set<Entry>, rest: set<Entry>, e: Entry)
    requires taken !! ({e} + rest) && e !in rest
    ensures (taken + {e}) + rest == taken + ({e} + rest) && (taken + {e}) !! rest && e !in taken
  {
  }

  class HashTable {
    /** The table proper; none of it is there before the first entry. */
    var heads: array<Entry?>
    /** The logarithm of the size, or -1. */
    var log: int
    var entries: nat
    ghost var chains: seq<seq<Entry>>

    ghost predicate Valid()
      reads this, heads, Members()`next, Members()`key
    {
      && log >= -1 && heads.Length == |chains| == (if log == -1 then 0 else Pow2(log))
      && entries == |Members()| && Apart(chains)
      && forall i | 0 <= i < |chains| :: ChainOk(i)
    }

    ghost predicate ChainOk(i: int)
      requires 0 <= i < |chains| == heads.Length
      reads this, heads, Members()`next, Members()`key
    {
      && (forall k | 0 <= k < |chains[i]| :: chains[i][k] in Members())
      && Chained(heads[i], chains[i]) && (log >= 0 ==> Filed(chains[i], log, i))
    }

    ghost function Members(): set<Entry>
      reads this`chains
    {
      All(chains)
    }

    constructor ()
      ensures Valid() && chains == [] && log == -1 && fresh(heads)
    {
      heads := new Entry?[0];
      log, entries, chains := -1, 0, [];
    }
 
    /** A table of empty chains. */
    constructor Sized(log: nat)
      ensures Valid() && this.log == log && entries == 0 && Members() == {} && fresh(heads)
    {
      heads := new Entry?[Pow2(log)](_ => null);
      this.log, entries, chains := log, 0, seq(Pow2(log), _ => []);
    }

    /** `GC_grow_table`: a table of twice the size takes over the entries, one chain after the other. */
    method Grow()
      requires Valid()
      modifies this, Members()`next
      ensures Valid() && fresh(heads) && log == old(log) + 1
      ensures Members() == old(Members()) && entries == old(entries)
    {
      hide Pow2, Valid;
      Sizes();
      Counted();
      var grown := new HashTable.Sized(log + 1);
      MoveAll(grown);
      grown.Counted();
      heads, log, chains := grown.heads, grown.log, grown.chains;
      SameTable(grown);
    }

    /** The loops of `GC_grow_table`. */
    method MoveAll(grown: HashTable)
      requires Valid() && grown.Valid() && this != grown && heads != grown.heads && grown.log >= 0 &&
                 grown.Members() == {}
      modifies grown, grown.heads, Members()`next
      ensures grown.Valid() && grown.log == old(grown.log) && grown.heads == old(grown.heads) &&
                grown.Members() == Members()
    {
      hide Pow2, Valid, Unmoved;
      RestAll(chains);
      AllUnmoved();
      var i := 0;
      while i < heads.Length
        invariant i <= heads.Length && grown.Valid() && grown.log == old(grown.log) && grown.heads == old(grown.heads)
        invariant grown.Members() + Rest(chains, i, 0) == Members() && grown.Members() !! Rest(chains, i, 0)
        invariant i < heads.Length ==> Unmoved(heads[i], i, 0)
      {
        MoveChain(grown, i);
        i := i + 1;
      }
      NoRest(chains);
    }

    /** The registration functions grow the table first, when it is missing or has more entries than chains. */
    method GrowIfFull()
      requires Valid()
      modifies this, Members()`next
      ensures Valid() && log >= 0 && Members() == old(Members()) && (heads == old(heads) || fresh(heads))
    {
      hide Valid, Pow2;
      Sizes();
      if log == -1 || entries > Pow2(log) { Grow(); }
    }

    /** The entries from position `k` of chain `i` on are still linked as they were, the first at `p`. */
    ghost predicate Unmoved(p: Entry?, i: nat, k: nat)
      reads this, heads, Rest(chains, i, k)`next
      requires i < heads.Length == |chains| && k <= |chains[i]|
    {
      && Apart(chains) && Once(chains[i]) &&
        (forall j | i < j < |chains| :: forall e | e in chains[j] :: e in Rest(chains, i, k))
      && (forall e | e in chains[i][k..] :: e in Rest(chains, i, k))
      && Chained(p, chains[i][k..]) && forall j | i < j < heads.Length :: Chained(heads[j], chains[j])
    }

    lemma AllUnmoved()
      requires Valid()
      ensures heads.Length == |chains| && (heads.Length > 0 ==> Unmoved(heads[0], 0, 0))
    {
      hide Filed, Apart, Pow2;
      forall j | 0 <= j < heads.Length ensures Chained(heads[j], chains[j]) && Once(chains[j]) { assert ChainOk(j); }
      if heads.Length > 0 {
        RestAll(chains);
        assert chains[0][0..] == chains[0];
        forall j | 0 <= j < |chains| ensures forall e | e in chains[j] :: e in All(chains) { Listed(chains, j); }
      }
    }

    lemma UnmovedNext(p: Entry, i: nat, k: nat)
      requires i < heads.Length == |chains| && k <= |chains[i]| && Unmoved(p, i, k)
      ensures k < |chains[i]| && p == chains[i][k] && Unmoved(p.next, i, k + 1)
      ensures Rest(chains, i, k) == {p} + Rest(chains, i, k + 1) && p !in Rest(chains, i, k + 1) && p in Members()
    {
      hide Rest;
      ChainedLinks(p, chains[i][k..]);
      RestNext(chains, i, k);
      ChainedTail(p, chains[i][k..]);
      assert Without(chains[i][k..], 0) == chains[i][k + 1..];
    }

    lemma UnmovedEnd(i: nat, k: nat)
      requires i < heads.Length == |chains| && k <= |chains[i]| && Unmoved(null, i, k)
      ensures k == |chains[i]| && Rest(chains, i, k) == Rest(chains, i + 1, 0)
      ensures i + 1 < heads.Length ==> Unmoved(heads[i + 1], i + 1, 0)
    {
      hide Rest, Apart;
      ChainedLinks(null, chains[i][k..]);
      RestEnd(chains, i);
      if i + 1 < heads.Length {
        assert chains[i + 1][0..] == chains[i + 1];
        ChainedLinks(heads[i + 1], chains[i + 1]);
      }
    }

    lemma SameTable(t: HashTable)
      requires t.Valid() && heads == t.heads && log == t.log && chains == t.chains && entries == t.entries
      ensures Valid()
    {
      hide Chained, Filed, Apart, Pow2, All;
      forall j | 0 <= j < |chains| ensures ChainOk(j) { assert t.ChainOk(j); }
    }

    /** The inner loop of `GC_grow_table`. */
    method MoveChain(grown: HashTable, i: nat)
      requires this != grown && heads != grown.heads && grown.Valid() && grown.log >= 0
      requires i < heads.Length == |chains| && Unmoved(heads[i], i, 0)
      requires grown.Members() + Rest(chains, i, 0) == Members() && grown.Members() !! Rest(chains, i, 0)
      modifies grown, grown.heads, Members()`next
      ensures grown.Valid() && grown.log == old(grown.log) && grown.heads == old(grown.heads)
      ensures grown.Members() + Rest(chains, i + 1, 0) == Members() && grown.Members() !! Rest(chains, i + 1, 0)
      ensures i + 1 < heads.Length ==> Unmoved(heads[i + 1], i + 1, 0)
    {
      hide Pow2, Valid, Unmoved, Hash;
      var p := heads[i];
      ghost var k := 0;
      while p != null
        invariant k <= |chains[i]| && Unmoved(p, i, k)
        invariant grown.Valid() && grown.log == old(grown.log) && grown.heads == old(grown.heads)
        invariant grown.Members() + Rest(chains, i, k) == Members() && grown.Members() !! Rest(chains, i, k)
        decreases |chains[i]| - k
      {
        UnmovedNext(p, i, k);
        Handed(grown.Members(), Rest(chains, i, k + 1), p);
        var next := p.next;
        var h := grown.Push(p);
        p, k := next, k + 1;
      }
      UnmovedEnd(i, k);
    }

    /** Takes the entry `curr` behind `prev` out of its chain. */
    method Unlink(i: nat, prev: Entry?, curr: Entry, ghost k: nat)
      requires Valid() && i < |chains| && k < |chains[i]| && curr == chains[i][k] && prev == At(chains[i], k - 1)
      modifies this`chains, this`entries, heads, (if prev == null then {} else {prev})`next
      ensures Valid() && log == old(log) && chains == old(chains)[i := Without(old(chains)[i], k)]
      ensures Members() == old(Members()) - {curr} && entries == old(entries) - 1
    {
      if prev == null {
        UnlinkFirst(i, curr);
      } else {
        UnlinkBehind(i, prev, curr, k);
      }
    }

    method UnlinkFirst(i: nat, curr: Entry)
      requires Valid() && i < |chains| && chains[i] != [] && curr == chains[i][0]
      modifies this`chains, this`entries, heads
      ensures Valid() && log == old(log) && chains == old(chains)[i := Without(old(chains)[i], 0)]
      ensures Members() == old(Members()) - {curr} && entries == old(entries) - 1
    {
      hide All, Apart, Hash, Chained, Filed, Pow2, Once, Hide;
      assert ChainOk(i);
      ChainedLinks(heads[i], chains[i]);
      WithoutAll(chains, i, 0);
      FiledWithout(chains[i], 0, log, i);
      ChainedTail(heads[i], chains[i]);
      heads[i] := curr.next;
      entries := entries - 1;
      chains := chains[i := Without(chains[i], 0)];
      forall j | 0 <= j < |chains| ensures ChainOk(j) {
        Listed(chains, j);
        if j != i { assert old(ChainOk(j)); }
      }
    }

    method UnlinkBehind(i: nat, prev: Entry, curr: Entry, ghost k: nat)
      requires Valid() && i < |chains| && 0 < k < |chains[i]| && curr == chains[i][k] && prev == chains[i][k - 1]
      modifies this`chains, this`entries, prev`next
      ensures Valid() && log == old(log) && chains == old(chains)[i := Without(old(chains)[i], k)]
      ensures Members() == old(Members()) - {curr} && entries == old(entries) - 1
    {
      hide All, Apart, Hash, Chained, Filed, Pow2, Once, Hide, At;
      ghost var before := chains;
      assert ChainOk(i);
      ChainedLinks(heads[i], chains[i]);
      WithoutAll(chains, i, k);
      FiledWithout(chains[i], k, log, i);
      Elsewhere(before, i, prev);
      OnceWithout(chains[i], k);
      prev.next := curr.next;
      Bypassed(heads[i], before[i], k);
      entries := entries - 1;
      chains := before[i := Without(before[i], k)];
      forall j | 0 <= j < |chains| ensures ChainOk(j) {
        Listed(chains, j);
        if j != i { assert old(ChainOk(j)); }
      }
    }

    /** Files an entry at the head of its chain. */
    method Push(e: Entry) returns (i: nat)
      requires Valid() && log >= 0 && e !in Members()
      modifies this`chains, this`entries, heads, e`next
      ensures Valid() && log == old(log) && i == Hash(Hide(e.key), log) && i < |old(chains)|
      ensures chains == old(chains)[i := [e] + old(chains)[i]]
      ensures Members() == old(Members()) + {e} && entries == old(entries) + 1
    {
      hide All, Apart, Hash, Chained, Filed, Pow2, Once;
      i := Hash(Hide(e.key), log);
      assert ChainOk(i);
      NotListed(chains, e);
      PushedAll(chains, i, e);
      FiledPushed(chains[i], e, log, i);
      e.next := heads[i];
      ChainedPushed(e.next, chains[i], e);
      heads[i] := e;
      entries := entries + 1;
      ghost var before := chains;
      chains := before[i := [e] + before[i]];
      forall j | 0 <= j < |chains| ensures ChainOk(j) {
        Listed(chains, j);
        if j != i { assert old(ChainOk(j)); }
      }
    }

    /** The search loop of the registration functions: the first entry with the given key, with the
        one before it. */
    method Lookup(key: Word) returns (i: nat, prev: Entry?, curr: Entry?, ghost k: nat)
      requires Valid() && log >= 0
      ensures i == Hash(Hide(key), log) && i < |chains|
      ensures curr == null ==> forall e | e in Members() :: e.key != key
      ensures curr != null ==>
                k < |chains[i]| && curr == chains[i][k] && curr.key == key && prev == At(chains[i], k - 1)
      ensures (curr != null ==> curr in Members()) && (prev != null ==> prev in Members())
    {
      hide All, Apart, Hash, Filed, Pow2;
      i := Hash(Hide(key), log);
      prev, curr, k := null, heads[i], 0;
      assert ChainOk(i);
      while curr != null && curr.key != key
        invariant k <= |chains[i]| && curr == At(chains[i], k) && prev == At(chains[i], k - 1)
        invariant forall l | 0 <= l < k :: chains[i][l].key != key
        decreases |chains[i]| - k
      {
        prev, curr, k := curr, curr.next, k + 1;
      }
      if curr == null { NotFound(key, i); }
    }

    /** A walk over the table has come to `curr`, entry `k` of chain `i`, behind `prev`; the entries of
        `left` are still ahead. */
    ghost predicate Walk(i: nat, k: nat, prev: Entry?, curr: Entry?, left: set<Entry>)
      reads this`chains
    {
      && i < |chains| && k <= |chains[i]| && curr == At(chains[i], k) && prev == At(chains[i], k - 1)
      && left == Rest(chains, i, k)
    }

    /** All chains from `i` on are still ahead. */
    ghost predicate Ahead(i: nat, left: set<Entry>)
      reads this`chains
    {
      i <= |chains| && left == Rest(chains, i, 0)
    }

    lemma Sizes()
      requires Valid()
      ensures log >= -1 && heads.Length == |chains| && (log == -1 ==> Members() == {})
    {
    }

    lemma Counted()
      requires Valid()
      ensures entries == |Members()|
    {
    }

    lemma WalkStarts()
      requires Valid()
      ensures Ahead(0, Members())
    {
      RestAll(chains);
    }

    lemma WalkEnds(left: set<Entry>)
      requires Valid() && Ahead(heads.Length, left)
      ensures left == {}
    {
    }

    lemma ChainStarts(i: nat, left: set<Entry>)
      requires Valid() && i < heads.Length && Ahead(i, left)
      ensures Walk(i, 0, null, heads[i], left)
    {
      assert ChainOk(i);
    }

    lemma ChainEnds(i: nat, k: nat, prev: Entry?, left: set<Entry>)
      requires Valid() && Walk(i, k, prev, null, left)
      ensures Ahead(i + 1, left)
    {
      RestEnd(chains, i);
    }

    lemma Here(i: nat, k: nat, prev: Entry?, curr: Entry?, left: set<Entry>)
      requires Valid() && Walk(i, k, prev, curr, left)
      ensures k <= Length(i) && (curr != null ==> curr in left && k < Length(i)) && left <= Members()
      ensures prev != null ==> prev in Members()
    {
      assert ChainOk(i);
      if curr != null { RestNext(chains, i, k); }
      RestListed(chains, i, k);
    }

    lemma NextEntry(i: nat, k: nat, prev: Entry?, curr: Entry, left: set<Entry>)
      requires Valid() && Walk(i, k, prev, curr, left)
      ensures Walk(i, k + 1, curr, curr.next, left - {curr}) && Length(i) > k
    {
      hide All, Apart, Filed, Hash, Rest, Pow2;
      assert ChainOk(i);
      ChainedLinks(heads[i], chains[i]);
      RestNext(chains, i, k);
    }

    ghost function Length(i: nat): nat
      reads this`chains
    {
      if i < |chains| then |chains[i]| else 0
    }

    /** Takes the entry out of the table and goes on to the next. */
    method Drop(i: nat, ghost k: nat, prev: Entry?, curr: Entry, ghost left: set<Entry>) returns (next: Entry?)
      requires Valid() && Walk(i, k, prev, curr, left)
      modifies this`chains, this`entries, heads, (if prev == null then {} else {prev})`next
      ensures Valid() && log == old(log) && |chains| == |old(chains)|
      ensures Walk(i, k, prev, next, left - {curr})
      ensures Members() == old(Members()) - {curr} && entries == old(entries) - 1 && Length(i) < old(Length(i))
    {
      hide All, Apart, Chained, Filed, Hash, Rest, Pow2;
      next := curr.next;
      assert ChainOk(i);
      ChainedLinks(heads[i], chains[i]);
      RestNext(chains, i, k);
      RestWithout(chains, i, k);
      Unlink(i, prev, curr, k);
    }

    lemma NotFound(key: Word, i: nat)
      requires Valid() && log >= 0 && i == Hash(Hide(key), log) && i < |chains|
      requires forall l | 0 <= l < |chains[i]| :: chains[i][l].key != key
      ensures forall e | e in Members() :: e.key != key
    {
      hide Hash, Apart, Chained, Pow2;
      forall e | e in Members() ensures e.key != key {
        var j, l :| 0 <= j < |chains| && 0 <= l < |chains[j]| && chains[j][l] == e;
        assert ChainOk(j);
      }
    }
  }
}
