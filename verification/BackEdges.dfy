/** The backward points-to graph of the collector (src/gc-7.2/backgraph.c:47-117, 172-269, 299-333):
    the predecessors of each object, kept in chunks of ten that come from a pool. */
module BackEdges {
  import opened Wrappers

  const MAX_IN := 10
  const MAX_BACK_EDGE_STRUCTS := 100000
  const HEIGHT_UNKNOWN := -2
  const HEIGHT_IN_PROGRESS := -1

  type Obj = nat

  type Edges = e: seq<Obj> | |e| == 10 witness [0, 0, 0, 0, 0, 0, 0, 0, 0, 0]

  /** The back pointer of an object: none, its one predecessor, or a `back_edges` structure. */
  datatype BackPtr = NoPred | OnePred(q: Obj) | ManyPreds(be: nat)

  /** A `back_edges` structure; `nEdges`, `retain` and the height matter in the first of a chain. */
  datatype EdgeStruct = EdgeStruct(nEdges: nat, retain: bool, heightGcNo: nat, height: int, edges: Edges,
    cont: Option<nat>)

  const Blank := EdgeStruct(0, false, 0, 0, [0, 0, 0, 0, 0, 0, 0, 0, 0, 0], None)

  /** How many structures hold `n` edges. */
  function Chunks(n: nat): nat {
    if n == 0 then 1 else (n + 9) / 10
  }

  function At(chain: seq<nat>, k: int): Option<nat> {
    if 0 <= k < |chain| then Some(chain[k]) else None
  }

  ghost predicate Once(chain: seq<nat>) {
    forall k, l | 0 <= k < l < |chain| :: chain[k] != chain[l]
  }

  /** The list from `head` has the structures of `chain`, once each. */
  ghost predicate Linked(space: seq<EdgeStruct>, head: Option<nat>, chain: seq<nat>) {
    && head == At(chain, 0) && Once(chain)
    && forall k | 0 <= k < |chain| :: chain[k] < |space| && space[chain[k]].cont == At(chain, k + 1)
  }

  /** Edge `k` of a chain of structures. */
  function EdgeAt(space: seq<EdgeStruct>, chain: seq<nat>, k: nat): Obj
    requires k < 10 * |chain| && forall i | 0 <= i < |chain| :: chain[i] < |space|
  {
    space[chain[k / 10]].edges[k % 10]
  }

  /** The chain of an object fits its back pointer. */
  ghost predicate ChainOk(space: seq<EdgeStruct>, ptr: BackPtr, chain: seq<nat>) {
    if ptr.ManyPreds? then chain != [] && Linked(space, Some(ptr.be), chain) && |chain| == Chunks(space[ptr.be].nEdges)
    else chain == []
  }

  /** The predecessors in the order of their entry. */
  ghost function PredsOf(space: seq<EdgeStruct>, ptr: BackPtr, chain: seq<nat>): seq<Obj>
    requires ChainOk(space, ptr, chain)
  {
    match ptr
    case NoPred => []
    case OnePred(q) => [q]
    case ManyPreds(be) => seq(space[be].nEdges, k requires 0 <= k < space[be].nEdges => EdgeAt(space, chain, k))
  }

  ghost predicate Distinct(preds: seq<Obj>) {
    forall k, l | 0 <= k < l < |preds| :: preds[k] != preds[l]
  }

  /** The structures of a chain hold the same edges, heights and flags aside. */
  ghost predicate SameChain(space: seq<EdgeStruct>, space': seq<EdgeStruct>, chain: seq<nat>) {
    && |space| == |space'|
    && forall k | 0 <= k < |chain| :: chain[k] < |space| && SameEdges(space[chain[k]], space'[chain[k]])
  }

  ghost predicate SameEdges(s: EdgeStruct, s': EdgeStruct) {
    s'.nEdges == s.nEdges && s'.edges == s.edges && s'.cont == s.cont
  }

  lemma SameChainOk(space: seq<EdgeStruct>, space': seq<EdgeStruct>, ptr: BackPtr, chain: seq<nat>)
    requires ChainOk(space, ptr, chain) && SameChain(space, space', chain)
    ensures ChainOk(space', ptr, chain) && PredsOf(space', ptr, chain) == PredsOf(space, ptr, chain)
  {
  }

  /** A chain is as it was when structures outside it change. */
  lemma Untouched(space: seq<EdgeStruct>, space': seq<EdgeStruct>, ptr: BackPtr, chain: seq<nat>, changed: set<nat>)
    requires ChainOk(space, ptr, chain) && |space'| == |space| && forall i | i in chain :: i !in changed
    requires forall i | 0 <= i < |space| && i !in changed :: SameEdges(space[i], space'[i])
    ensures ChainOk(space', ptr, chain) && PredsOf(space', ptr, chain) == PredsOf(space, ptr, chain)
  {
    assert ptr.ManyPreds? ==> Linked(space, Some(ptr.be), chain);
    SameChainOk(space, space', ptr, chain);
  }

  lemma ListUntouched(space: seq<EdgeStruct>, space': seq<EdgeStruct>, head: Option<nat>, chain: seq<nat>,
                      changed: set<nat>)
    requires Linked(space, head, chain) && |space'| == |space| && forall i | i in chain :: i !in changed
    requires forall i | 0 <= i < |space| && i !in changed :: SameEdges(space[i], space'[i])
    ensures Linked(space', head, chain)
  {
  }

  lemma EmptyList(space: seq<EdgeStruct>, head: Option<nat>, chain: seq<nat>)
    requires Linked(space, head, chain)
    ensures head.None? <==> chain == []
  {
  }

  lemma ListTail(space: seq<EdgeStruct>, head: Option<nat>, chain: seq<nat>)
    requires Linked(space, head, chain) && head.Some?
    ensures chain != [] && head.value == chain[0] && head.value < |space| &&
              Linked(space, space[head.value].cont, chain[1..])
    ensures chain[0] !in chain[1..]
  {
  }

  /** One more edge, `p`, in the new structure `be`, behind the structure `last` of the list that starts
      at `first`. */
  function WithNew(space: seq<EdgeStruct>, first: nat, last: nat, be: nat, p: Obj): seq<EdgeStruct>
    requires first < |space| && last < |space| && be < |space|
  {
    var linked := space[last := space[last].(cont := Some(be))];
    var stored := linked[be := linked[be].(edges := linked[be].edges[0 := p])];
    stored[first := stored[first].(nEdges := stored[first].nEdges + 1)]
  }

  lemma WithNewElsewhere(space: seq<EdgeStruct>, first: nat, last: nat, be: nat, p: Obj)
    requires first < |space| && last < |space| && be < |space|
    ensures |WithNew(space, first, last, be, p)| == |space|
    ensures forall i | 0 <= i < |space| && i !in {last, be, first} :: WithNew(space, first, last, be, p)[i] == space[i]
  {
  }

  lemma LinkedBehind(space: seq<EdgeStruct>, head: Option<nat>, chain: seq<nat>, first: nat, be: nat, p: Obj)
    requires Linked(space, head, chain) && head.Some? && chain != [] && chain[|chain| - 1] < |space|
    requires first < |space| && be < |space| && be !in chain && space[be].cont.None?
    ensures Linked(WithNew(space, first, chain[|chain| - 1], be, p), head, chain + [be])
  {
    var last := chain[|chain| - 1];
    NewConts(space, first, last, be, p);
    hide WithNew;
    forall k | 0 <= k < |chain| - 1 ensures chain[k] != last && chain[k] != be {}
  }

  lemma NewConts(space: seq<EdgeStruct>, first: nat, last: nat, be: nat, p: Obj)
    requires first < |space| && last < |space| && be < |space| && be != last
    ensures var space' := WithNew(space, first, last, be, p);
            |space'| == |space| &&
            forall i | 0 <= i < |space| :: space'[i].cont == if i == last then Some(be) else space[i].cont
  {
  }

  /** The structure an object's chain gets for one more edge goes to its end. */
  lemma Appended(space: seq<EdgeStruct>, ptr: BackPtr, chain: seq<nat>, be: nat, p: Obj)
    requires ChainOk(space, ptr, chain) && ptr.ManyPreds? && be < |space| && be !in chain && space[be].cont.None?
    requires ptr.be < |space| && chain != [] && chain[|chain| - 1] < |space|
    requires space[ptr.be].nEdges > 0 && space[ptr.be].nEdges % 10 == 0
    ensures ChainOk(WithNew(space, ptr.be, chain[|chain| - 1], be, p), ptr, chain + [be])
    ensures PredsOf(WithNew(space, ptr.be, chain[|chain| - 1], be, p), ptr, chain + [be]) ==
              PredsOf(space, ptr, chain) + [p]
  {
    var n, last := space[ptr.be].nEdges, chain[|chain| - 1];
    var space', chain' := WithNew(space, ptr.be, last, be, p), chain + [be];
    assert |chain| == n / 10;
    LinkedBehind(space, Some(ptr.be), chain, ptr.be, be, p);
    forall k | 0 <= k <= n ensures PredsOf(space', ptr, chain')[k] == (PredsOf(space, ptr, chain) + [p])[k] {
      if k < n { assert k / 10 < |chain|; }
    }
  }

  /** One more edge, `p`, in the structure `last` of the list that starts at `first`. */
  function WithEdge(space: seq<EdgeStruct>, first: nat, last: nat, p: Obj): seq<EdgeStruct>
    requires first < |space| && last < |space|
  {
    var n := space[first].nEdges;
    var stored := space[last := space[last].(edges := space[last].edges[n % 10 := p])];
    stored[first := stored[first].(nEdges := n + 1)]
  }

  /** One more edge in the last structure. */
  lemma Stored(space: seq<EdgeStruct>, ptr: BackPtr, chain: seq<nat>, p: Obj)
    requires ChainOk(space, ptr, chain) && ptr.ManyPreds? && ptr.be < |space|
    requires chain != [] && chain[|chain| - 1] < |space|
    requires space[ptr.be].nEdges == 0 || space[ptr.be].nEdges % 10 != 0
    ensures ChainOk(WithEdge(space, ptr.be, chain[|chain| - 1], p), ptr, chain)
    ensures PredsOf(WithEdge(space, ptr.be, chain[|chain| - 1], p), ptr, chain) == PredsOf(space, ptr, chain) + [p]
  {
    var n, last := space[ptr.be].nEdges, chain[|chain| - 1];
    var space' := WithEdge(space, ptr.be, last, p);
    assert |chain| - 1 == n / 10;
    assert Linked(space', Some(ptr.be), chain);
    forall k | 0 <= k <= n ensures PredsOf(space', ptr, chain)[k] == (PredsOf(space, ptr, chain) + [p])[k] {
      if k < n && k / 10 < |chain| - 1 { assert chain[k / 10] != last; }
    }
  }

  class BackGraph {
    /** The back pointers of the objects that have debugging information. */
    var backPtr: map<Obj, BackPtr>
    var space: array<EdgeStruct>
    var nStructs: nat
    var avail: Option<nat>
    var randomNumber: nat
    var gcNo: nat
    ghost var chains: map<Obj, seq<nat>>
    ghost var free: seq<nat>
    /** Every structure handed out so far is free or belongs to one object. */
    ghost var owner: map<nat, Option<Obj>>

    ghost predicate Valid()
      reads this, space
    {
      ValidBut({})
    }

    /** The structures of `held` have been taken from the pool and are on no chain yet. */
    ghost predicate ValidBut(held: set<nat>)
      reads this, space
    {
      && space.Length == MAX_BACK_EDGE_STRUCTS && nStructs <= MAX_BACK_EDGE_STRUCTS && chains.Keys == backPtr.Keys
      && (forall o | o in backPtr :: ObjectOk(o))
      && Linked(space[..], avail, free) && (forall i | i in free :: i in owner && owner[i].None?)
      && (forall i :: i in owner <==> 0 <= i < nStructs)
      && (forall i | i in owner :: Kept(i, held))
      && forall i | nStructs <= i < space.Length :: space[i].cont.None?
    }

    ghost predicate Kept(i: nat, held: set<nat>)
      requires i in owner
      reads this
    {
      if owner[i].None? then i in free else i in held || (owner[i].value in chains && i in chains[owner[i].value])
    }

    ghost predicate ObjectOk(o: Obj)
      requires o in backPtr
      reads this, space
    {
      && o in chains && ChainOk(space[..], backPtr[o], chains[o]) && Distinct(PredsOf(space[..], backPtr[o], chains[o]))
      && forall i | i in chains[o] :: i in owner && owner[i] == Some(o)
    }

    /** The predecessors of an object. */
    ghost function Preds(o: Obj): seq<Obj>
      requires o in backPtr && ObjectOk(o)
      reads this, space
    {
      PredsOf(space[..], backPtr[o], chains[o])
    }

    /** A structure is free or was never used. */
    ghost predicate Room()
      reads this
    {
      free != [] || nStructs < MAX_BACK_EDGE_STRUCTS - 1
    }

    constructor (objects: set<Obj>)
      ensures Valid() && backPtr == map o | o in objects :: NoPred
    {
      space := new EdgeStruct[MAX_BACK_EDGE_STRUCTS](_ => Blank);
      backPtr := map o | o in objects :: NoPred;
      nStructs, avail, randomNumber, gcNo := 0, None, 13, 0;
      chains, free, owner := map o | o in objects :: [], [], map[];
    }

    /** `new_back_edges`, from the free list or from space never used. */
    method NewBackEdges(ghost o: Obj) returns (be: nat)
      requires Valid() && Room()
      modifies this`avail, this`nStructs, this`free, this`owner, space
      ensures ValidBut({be}) && be in owner && owner[be] == Some(o) && space[be].cont.None?
      ensures forall x | x in backPtr :: be !in chains[x] && Preds(x) == old(Preds(x))
      ensures be < space.Length && space[..] == old(space[..])[be := old(space[..])[be].(cont := None)]
    {
      hide ChainOk, PredsOf, Linked, Distinct;
      if avail.Some? {
        be := Reuse(o);
      } else {
        EmptyList(space[..], avail, free);
        be := nStructs;
        nStructs := nStructs + 1;
        owner := owner[be := Some(o)];
        forall x | x in backPtr ensures ObjectOk(x) { assert old(ObjectOk(x)); }
        forall i | i in owner ensures Kept(i, {be}) {
          if i != be { assert old(Kept(i, {})); }
        }
      }
    }

    method Reuse(ghost o: Obj) returns (be: nat)
      requires Valid() && avail.Some?
      modifies this`avail, this`free, this`owner, space
      ensures ValidBut({be}) && be in owner && owner[be] == Some(o)
      ensures forall x | x in backPtr :: be !in chains[x] && Preds(x) == old(Preds(x))
      ensures be < space.Length && space[..] == old(space[..])[be := old(space[..])[be].(cont := None)]
    {
      hide ChainOk, PredsOf, Linked, Distinct;
      ghost var before := space[..];
      ListTail(before, avail, free);
      be := avail.value;
      avail := space[be].cont;
      space[be] := space[be].(cont := None);
      assert space[..] == before[be := before[be].(cont := None)];
      ListUntouched(before, space[..], avail, free[1..], {be});
      free := free[1..];
      owner := owner[be := Some(o)];
      forall i | i in free ensures i in owner && owner[i].None? { assert i in old(free); }
      forall x | x in backPtr ensures be !in chains[x] && ObjectOk(x) && Preds(x) == old(Preds(x)) {
        assert old(ObjectOk(x));
        Untouched(before, space[..], backPtr[x], chains[x], {be});
      }
      forall i | i in owner ensures Kept(i, {be}) {
        if i != be { assert old(Kept(i, {})); }
      }
      assert Linked(space[..], avail, free);
      assert forall x | x in backPtr :: ObjectOk(x);
      assert forall i | nStructs <= i < space.Length :: space[i].cont.None?;
      assert forall i :: i in owner <==> 0 <= i < nStructs;
    }

    /** `FOR_EACH_PRED`: the edges of one structure after the other. */
    method ListPreds(o: Obj) returns (preds: seq<Obj>)
      requires o in backPtr && ObjectOk(o)
      ensures preds == Preds(o)
    {
      match backPtr[o]
      case NoPred => preds := [];
      case OnePred(q) => preds := [q];
      case ManyPreds(orig) => preds := ListEdges(o, orig);
    }

    method ListEdges(o: Obj, orig: nat) returns (preds: seq<Obj>)
      requires o in backPtr && ObjectOk(o) && backPtr[o] == ManyPreds(orig)
      ensures preds == Preds(o)
    {
      hide ChainOk, PredsOf, Linked, Distinct;
      preds := [];
      var be, local, total := orig, 0, 0;
      ghost var c := 0;
      EdgesFrom(space[..], orig, chains[o]);
      while total < space[orig].nEdges
        invariant total <= space[orig].nEdges == |Preds(o)| && total == 10 * c + local && local <= 10
        invariant c < |chains[o]| && be == chains[o][c]
        invariant preds == Preds(o)[..total]
      {
        EdgeHere(space[..], orig, chains[o], c, total);
        if local == MAX_IN {
          be, local, c := space[be].cont.value, 0, c + 1;
        }
        preds := preds + [space[be].edges[local]];
        local, total := local + 1, total + 1;
      }
    }

    /** The structures of `chain`, which are on no object's chain any more, are all free. */
    ghost predicate Loose(chain: seq<nat>, held: set<nat>)
      reads this
    {
      forall i | i in chain :: i in owner && owner[i].Some? && i in held && forall x | x in chains :: i !in chains[x]
    }

    /** The loop of `deallocate_back_edges`. */
    method LastOf(p: nat, ghost chain: seq<nat>) returns (last: nat)
      requires chain != [] && Linked(space[..], Some(p), chain)
      ensures last == chain[|chain| - 1] && last < space.Length
    {
      last := p;
      ghost var k := 0;
      while space[last].cont.Some?
        invariant k < |chain| && last == chain[k]
        decreases |chain| - k
      {
        last, k := space[last].cont.value, k + 1;
      }
    }

    /** `deallocate_back_edges`: a whole chain goes to the head of the free list. */
    method Deallocate(p: nat, ghost chain: seq<nat>, ghost held: set<nat>)
      requires ValidBut(held) && chain != [] && Linked(space[..], Some(p), chain) && Loose(chain, held)
      modifies this`avail, this`free, this`owner, space
      ensures ValidBut(held - Elements(chain)) && free == chain + old(free)
      ensures forall x | x in backPtr :: Preds(x) == old(Preds(x))
      ensures forall i | 0 <= i < space.Length && i !in chain :: space[i] == old(space[i])
    {
      hide ChainOk, PredsOf, Distinct, Linked;
      ghost var before := space[..];
      var last := LastOf(p, chain);
      assert last in chain;
      space[last] := space[last].(cont := avail);
      assert space[..] == before[last := before[last].(cont := avail)];
      ListsJoined(before, p, chain, avail, free);
      avail := Some(p);
      free := chain + free;
      owner := map i | i in owner :: if i in chain then None else owner[i];
      forall x | x in backPtr ensures ObjectOk(x) && Preds(x) == old(Preds(x)) {
        assert old(ObjectOk(x));
        Untouched(before, space[..], backPtr[x], chains[x], {last});
      }
      forall i | i in owner ensures Kept(i, held - Elements(chain)) { assert old(Kept(i, held)); }
    }

    /** `ensure_struct`: an object gets a structure of its own; its predecessors stay. */
    method EnsureStruct(o: Obj)
      requires Valid() && o in backPtr && (backPtr[o].ManyPreds? || Room())
      modifies this`backPtr, this`chains, this`avail, this`nStructs, this`free, this`owner, space
      ensures Valid() && backPtr.Keys == old(backPtr).Keys && backPtr[o].ManyPreds? && backPtr[o].be < space.Length
      ensures forall x | x in backPtr :: Preds(x) == old(Preds(x))
      ensures if old(backPtr[o].ManyPreds?) then free == old(free) && nStructs == old(nStructs)
                else space[backPtr[o].be].nEdges <= 1
    {
      hide ChainOk, PredsOf, Linked, Distinct;
      if !backPtr[o].ManyPreds? {
        var be := NewBackEdges(o);
        Fill(o, be);
      } else {
        assert ObjectOk(o);
        FirstListed(space[..], backPtr[o], chains[o]);
      }
    }

    method Fill(o: Obj, be: nat)
      requires ValidBut({be}) && o in backPtr && !backPtr[o].ManyPreds?
      requires be in owner && owner[be] == Some(o) && space[be].cont.None? && forall x | x in backPtr ::
                 be !in chains[x]
      modifies this`backPtr, this`chains, space
      ensures Valid() && backPtr == old(backPtr)[o := ManyPreds(be)] && be < space.Length && space[be].nEdges <= 1
      ensures forall x | x in backPtr :: Preds(x) == old(Preds(x))
    {
      hide ChainOk, PredsOf, Linked, Distinct;
      ghost var before := space[..];
      var ptr := backPtr[o];
      assert ObjectOk(o);
      NoChain(before, ptr, chains[o]);
      space[be] := EdgeStruct(if ptr.NoPred? then 0 else 1, false, (gcNo + 0xFFFF) % 0x1_0000, HEIGHT_UNKNOWN,
                              if ptr.NoPred? then space[be].edges else space[be].edges[0 := ptr.q], None);
      FirstStruct(before, ptr, chains[o], space[..], be);
      ListUntouched(before, space[..], avail, free, {be});
      backPtr := backPtr[o := ManyPreds(be)];
      chains := chains[o := [be]];
      forall x | x in backPtr ensures ObjectOk(x) && Preds(x) == old(Preds(x)) {
        assert old(ObjectOk(x));
        if x != o { Untouched(before, space[..], backPtr[x], chains[x], {be}); }
      }
      forall i | i in owner ensures Kept(i, {}) { assert old(Kept(i, {be})); }
    }

    /** The structure for the next edge: the last of the chain, with `i` edges in it. */
    method LastStruct(o: Obj) returns (be: nat, i: nat)
      requires o in backPtr && ObjectOk(o) && backPtr[o].ManyPreds?
      ensures chains[o] != [] && be == chains[o][|chains[o]| - 1] && be < space.Length && backPtr[o].be < space.Length
      ensures i == space[backPtr[o].be].nEdges - 10 * (|chains[o]| - 1) &&
                (i == 0 ==> space[backPtr[o].be].nEdges == 0) && i <= 10
    {
      be := backPtr[o].be;
      i := space[be].nEdges;
      ghost var k := 0;
      while i > MAX_IN
        invariant k < |chains[o]| && be == chains[o][k] && i == space[backPtr[o].be].nEdges - 10 * k
        invariant i == 0 ==> k == 0
      {
        be, i, k := space[be].cont.value, i - MAX_IN, k + 1;
      }
    }

    /** Another edge in the last structure of the chain. */
    method StoreEdge(p: Obj, q: Obj, be: nat, i: nat)
      requires Valid() && q in backPtr && backPtr[q].ManyPreds? && p !in Preds(q) && be < space.Length &&
                 backPtr[q].be < space.Length
      requires chains[q] != [] && be == chains[q][|chains[q]| - 1] && i < 10
      requires i == space[backPtr[q].be].nEdges - 10 * (|chains[q]| - 1) &&
                 (i == 0 ==> space[backPtr[q].be].nEdges == 0)
      modifies space
      ensures Valid() && Preds(q) == old(Preds(q)) + [p]
      ensures forall x | x in backPtr && x != q :: Preds(x) == old(Preds(x))
    {
      hide ChainOk, PredsOf, Linked, Distinct;
      ghost var before := space[..];
      var first := backPtr[q].be;
      assert ObjectOk(q);
      Stored(before, backPtr[q], chains[q], p);
      space[be] := space[be].(edges := space[be].edges[i := p]);
      space[first] := space[first].(nEdges := space[first].nEdges + 1);
      assert space[..] == before[be := before[be].(edges := before[be].edges[i := p])][first := space[first]];
      FirstListed(before, backPtr[q], chains[q]);
      DistinctMore(old(Preds(q)), p);
      ListUntouched(before, space[..], avail, free, {be, first});
      forall x | x in backPtr ensures ObjectOk(x) && (x != q ==> Preds(x) == old(Preds(x))) {
        assert old(ObjectOk(x));
        if x != q { Untouched(before, space[..], backPtr[x], chains[x], {be, first}); }
      }
      forall i | i in owner ensures Kept(i, {}) { assert old(Kept(i, {})); }
    }

    /** Another edge in a structure of its own, behind the last one. */
    method ExtendChain(p: Obj, q: Obj, last: nat)
      requires Valid() && Room() && q in backPtr && backPtr[q].ManyPreds? && p !in Preds(q)
      requires last < space.Length && backPtr[q].be < space.Length && chains[q] != [] &&
                 last == chains[q][|chains[q]| - 1]
      requires space[backPtr[q].be].nEdges == 10 * |chains[q]|
      modifies this`chains, this`avail, this`nStructs, this`free, this`owner, space
      ensures Valid() && Preds(q) == old(Preds(q)) + [p]
      ensures forall x | x in backPtr && x != q :: Preds(x) == old(Preds(x))
    {
      hide ChainOk, PredsOf, Linked, Distinct;
      var first := backPtr[q].be;
      var be := NewBackEdges(q);
      assert ObjectOk(q);
      LinkNew(p, q, last, be);
    }

    method LinkNew(p: Obj, q: Obj, last: nat, be: nat)
      requires ValidBut({be}) && q in backPtr && backPtr[q].ManyPreds? && p !in Preds(q)
      requires last < space.Length && backPtr[q].be < space.Length && chains[q] != [] &&
                 last == chains[q][|chains[q]| - 1]
      requires space[backPtr[q].be].nEdges == 10 * |chains[q]|
      requires be in owner && owner[be] == Some(q) && space[be].cont.None? && forall x | x in backPtr ::
                 be !in chains[x]
      modifies this`chains, space
      ensures Valid() && Preds(q) == old(Preds(q)) + [p]
      ensures forall x | x in backPtr && x != q :: Preds(x) == old(Preds(x))
    {
      hide ChainOk, PredsOf, Linked, Distinct, Once, WithNew;
      ghost var before := space[..];
      var first := backPtr[q].be;
      assert ObjectOk(q);
      FirstListed(before, backPtr[q], chains[q]);
      Appended(before, backPtr[q], chains[q], be, p);
      WithNewElsewhere(before, first, last, be, p);
      WriteNew(first, last, be, p);
      ghost var chain := chains[q];
      assert last in chain;
      chains := chains[q := chain + [be]];
      DistinctMore(old(Preds(q)), p);
      ListUntouched(before, space[..], avail, free, {last, be, first});
      forall x | x in backPtr ensures ObjectOk(x) && (x != q ==> Preds(x) == old(Preds(x))) {
        assert old(ObjectOk(x));
        if x != q { Untouched(before, space[..], backPtr[x], chains[x], {last, be, first}); }
      }
      forall i | i in owner ensures Kept(i, {}) { assert old(Kept(i, {be})); }
    }

    method WriteNew(first: nat, last: nat, be: nat, p: Obj)
      requires first < space.Length && last < space.Length && be < space.Length
      modifies space
      ensures space[..] == WithNew(old(space[..]), first, last, be, p)
    {
      space[last] := space[last].(cont := Some(be));
      space[be] := space[be].(edges := space[be].edges[0 := p]);
      space[first] := space[first].(nEdges := space[first].nEdges + 1);
    }

    /** Every 128th single edge gets a structure, to have some heights to store along long chains. */
    method GotLuckyNumber() returns (lucky: bool)
      modifies this`randomNumber
    {
      randomNumber := (randomNumber + 1) % 0x1_0000_0000;
      lucky := randomNumber % 0x80 == 0;
    }

    /** `add_edge`: the edge from `p` to `q`, unless it is there already or one of them has no debugging
        information. */
    method AddEdge(p: Obj, q: Obj)
      requires Valid() && Room()
      modifies this`backPtr, this`chains, this`avail, this`nStructs, this`free, this`owner, this`randomNumber, space
      ensures Valid() && backPtr.Keys == old(backPtr).Keys
      ensures forall x | x in backPtr ::
                Preds(x) == if x == q && p in backPtr && p !in old(Preds(x)) then old(Preds(x)) + [p] else old(Preds(x))
    {
      hide ChainOk, PredsOf, Linked, Distinct;
      if q !in backPtr || p !in backPtr { return; }
      assert ObjectOk(q);
      if backPtr[q].NoPred? {
        SetFirst(p, q);
        var lucky := GotLuckyNumber();
        if lucky { EnsureStruct(q); }
        return;
      }
      var preds := ListPreds(q);
      if p in preds { return; }
      AppendEdge(p, q);
    }

    method SetFirst(p: Obj, q: Obj)
      requires Valid() && q in backPtr && backPtr[q].NoPred?
      modifies this`backPtr
      ensures Valid() && backPtr == old(backPtr)[q := OnePred(p)]
      ensures forall x | x in backPtr :: Preds(x) == (if x == q then [p] else old(Preds(x))) &&
                (x == q ==> old(Preds(x)) == [])
    {
      hide Linked;
      backPtr := backPtr[q := OnePred(p)];
      forall x | x in backPtr ensures ObjectOk(x) { assert old(ObjectOk(x)); }
      forall i | i in owner ensures Kept(i, {}) { assert old(Kept(i, {})); }
    }

    method AppendEdge(p: Obj, q: Obj)
      requires Valid() && Room() && q in backPtr && !backPtr[q].NoPred? && p !in Preds(q)
      modifies this`backPtr, this`chains, this`avail, this`nStructs, this`free, this`owner, space
      ensures Valid() && backPtr.Keys == old(backPtr).Keys
      ensures forall x | x in backPtr :: Preds(x) == if x == q then old(Preds(x)) + [p] else old(Preds(x))
    {
      hide ChainOk, PredsOf, Linked, Distinct;
      assert ObjectOk(q);
      EnsureStruct(q);
      assert ObjectOk(q);
      var be, i := LastStruct(q);
      if i == MAX_IN {
        ExtendChain(p, q, be);
      } else {
        StoreEdge(p, q, be, i);
      }
    }

    /** `reset_back_edge`: all edges to the object are dropped; its structure goes too, unless it holds a
        height to be remembered for one more cycle. */
    method Reset(o: Obj)
      requires Valid()
      modifies this`backPtr, this`chains, this`avail, this`free, this`owner, space
      ensures Valid() && backPtr.Keys == old(backPtr).Keys
      ensures forall x | x in backPtr :: Preds(x) == if x == o then [] else old(Preds(x))
      ensures o in backPtr ==> backPtr[o] == if old(Retained(o)) then old(backPtr[o]) else NoPred
      ensures o in backPtr && old(Retained(o)) ==>
                backPtr[o].be < space.Length && !space[backPtr[o].be].retain && Height(o) == old(Height(o))
    {
      hide ChainOk, PredsOf, Linked, Distinct;
      if o !in backPtr { return; }
      assert ObjectOk(o);
      if backPtr[o].ManyPreds? {
        FirstListed(space[..], backPtr[o], chains[o]);
        if !space[backPtr[o].be].retain {
          DropStruct(o);
        } else {
          DropEdges(o);
        }
      } else {
        DropPointer(o);
      }
    }

    ghost predicate Retained(o: Obj)
      requires o in backPtr
      reads this, space
    {
      backPtr[o].ManyPreds? && backPtr[o].be < space.Length && space[backPtr[o].be].retain
    }

    /** The remembered height and when it was found. */
    ghost function Height(o: Obj): (int, nat)
      requires o in backPtr && backPtr[o].ManyPreds? && backPtr[o].be < space.Length
      reads this, space
    {
      (space[backPtr[o].be].height, space[backPtr[o].be].heightGcNo)
    }

    lemma AllOk()
      requires Valid()
      ensures forall o | o in backPtr :: ObjectOk(o)
    {
    }

    /** The heights in the structures. */
    ghost function Heights(): map<Obj, (int, nat)>
      reads this, space
    {
      map o | o in backPtr && backPtr[o].ManyPreds? && backPtr[o].be < space.Length :: Height(o)
    }

    /** A height is noted in the object's structure. */
    method SetHeight(o: Obj, height: int, heightGcNo: nat)
      requires Valid() && o in backPtr && backPtr[o].ManyPreds? && backPtr[o].be < space.Length
      modifies space
      ensures Valid() && Heights() == old(Heights())[o := (height, heightGcNo)]
      ensures forall x | x in backPtr :: Preds(x) == old(Preds(x))
    {
      hide ChainOk, PredsOf, Linked, Distinct;
      ghost var before := space[..];
      var be := backPtr[o].be;
      space[be] := space[be].(height := height, heightGcNo := heightGcNo);
      ListUntouched(before, space[..], avail, free, {});
      forall x | x in backPtr ensures ObjectOk(x) && Preds(x) == old(Preds(x)) {
        assert old(ObjectOk(x));
        Untouched(before, space[..], backPtr[x], chains[x], {});
      }
      forall x | x in backPtr && backPtr[x].ManyPreds? && x != o
        ensures backPtr[x].be < space.Length && backPtr[x].be != be
      {
        assert ObjectOk(x) && ObjectOk(o);
        FirstListed(before, backPtr[x], chains[x]);
        FirstListed(before, backPtr[o], chains[o]);
      }
      forall i | i in owner ensures Kept(i, {}) { assert old(Kept(i, {})); }
    }

    method DropPointer(o: Obj)
      requires Valid() && o in backPtr && !backPtr[o].ManyPreds?
      modifies this`backPtr
      ensures Valid() && backPtr == old(backPtr)[o := NoPred]
      ensures forall x | x in backPtr :: Preds(x) == if x == o then [] else old(Preds(x))
    {
      hide Linked, ChainOk, PredsOf, Distinct;
      assert ObjectOk(o);
      NoChain(space[..], backPtr[o], chains[o]);
      NoPredsYet(space[..]);
      backPtr := backPtr[o := NoPred];
      forall x | x in backPtr
        ensures ObjectOk(x) && Preds(x) == if x == o then [] else old(Preds(x)) { assert old(ObjectOk(x)); }
      forall i | i in owner ensures Kept(i, {}) { assert old(Kept(i, {})); }
    }

    method DropStruct(o: Obj)
      requires Valid() && o in backPtr && backPtr[o].ManyPreds?
      modifies this`backPtr, this`chains, this`avail, this`free, this`owner, space
      ensures Valid() && backPtr == old(backPtr)[o := NoPred]
      ensures forall x | x in backPtr :: Preds(x) == if x == o then [] else old(Preds(x))
    {
      hide PredsOf, Linked, Distinct;
      assert ObjectOk(o);
      ghost var chain := chains[o];
      var be := backPtr[o].be;
      backPtr := backPtr[o := NoPred];
      chains := chains[o := []];
      NoPredsYet(space[..]);
      forall x | x in backPtr
        ensures ObjectOk(x) && Preds(x) == if x == o then [] else old(Preds(x)) { assert old(ObjectOk(x)); }
      forall i | i in owner ensures Kept(i, Elements(chain)) { assert old(Kept(i, {})); }
      Deallocate(be, chain, Elements(chain));
      assert Elements(chain) - Elements(chain) == {};
    }

    method DropEdges(o: Obj)
      requires Valid() && o in backPtr && backPtr[o].ManyPreds? && backPtr[o].be < space.Length
      modifies this`chains, this`avail, this`free, this`owner, space
      ensures Valid()
      ensures forall x | x in backPtr :: Preds(x) == if x == o then [] else old(Preds(x))
      ensures !space[backPtr[o].be].retain && Height(o) == old(Height(o))
    {
      hide ChainOk, PredsOf, Linked, Distinct;
      var be := backPtr[o].be;
      var cont := space[be].cont;
      assert ObjectOk(o);
      FirstListed(space[..], backPtr[o], chains[o]);
      ghost var rest := chains[o][1..];
      KeepFirst(o, be);
      if cont.Some? {
        Deallocate(cont.value, rest, Elements(rest));
        assert Elements(rest) - Elements(rest) == {};
      } else {
        assert Elements(rest) == {};
      }
    }

    /** The first structure of the object stays, without edges; the rest of the chain is cut off. */
    method KeepFirst(o: Obj, be: nat)
      requires Valid() && o in backPtr && backPtr[o].ManyPreds? && backPtr[o].be == be < space.Length
      requires chains[o] != []
      modifies this`chains, space
      ensures ValidBut(Elements(old(chains)[o][1..])) && Loose(old(chains)[o][1..], Elements(old(chains)[o][1..]))
      ensures forall i | 0 <= i < space.Length && i != be :: space[i] == old(space[i])
      ensures forall x | x in backPtr :: Preds(x) == if x == o then [] else old(Preds(x))
      ensures Linked(space[..], old(space[be].cont), old(chains)[o][1..])
      ensures (old(space[be].cont).None? <==> old(chains)[o][1..] == []) && be !in old(chains)[o][1..]
      ensures !space[be].retain && Height(o) == old(Height(o))
    {
      hide ChainOk, PredsOf, Linked, Distinct, Chunks, Once;
      assert ObjectOk(o);
      ghost var before, chain := space[..], chains[o];
      Shortened(before, backPtr[o], chain);
      FirstListed(before, backPtr[o], chain);
      space[be] := space[be].(nEdges := 0, cont := None, retain := false);
      assert space[..] == before[be := before[be].(nEdges := 0, cont := None, retain := false)];
      chains := chains[o := [be]];
      ListUntouched(before, space[..], avail, free, {be});
      forall x | x in backPtr ensures ObjectOk(x) && Preds(x) == if x == o then [] else old(Preds(x)) {
        assert old(ObjectOk(x));
        if x != o { Untouched(before, space[..], backPtr[x], chains[x], {be}); }
      }
      forall i | i in owner ensures Kept(i, Elements(chain[1..])) {
        assert old(Kept(i, {}));
        if i in chain && i != be { InTail(chain, i); }
      }
    }
  }

  lemma EdgesFrom(space: seq<EdgeStruct>, orig: nat, chain: seq<nat>)
    requires ChainOk(space, ManyPreds(orig), chain)
    ensures orig < |space| && chain != [] && chain[0] == orig
    ensures |PredsOf(space, ManyPreds(orig), chain)| == space[orig].nEdges
  {
  }

  /** Edge `k` is in structure `c` of the chain, or first in the next one. */
  lemma EdgeHere(space: seq<EdgeStruct>, orig: nat, chain: seq<nat>, c: nat, k: nat)
    requires ChainOk(space, ManyPreds(orig), chain) && c < |chain| && 10 * c <= k <= 10 * c + 10
    requires orig < |space| && k < space[orig].nEdges == |PredsOf(space, ManyPreds(orig), chain)|
    ensures chain[c] < |space|
    ensures k < 10 * c + 10 ==> PredsOf(space, ManyPreds(orig), chain)[k] == space[chain[c]].edges[k - 10 * c]
    ensures k == 10 * c + 10 ==>
              && c + 1 < |chain| && space[chain[c]].cont == Some(chain[c + 1]) && chain[c + 1] < |space|
              && PredsOf(space, ManyPreds(orig), chain)[k] == space[chain[c + 1]].edges[0]
  {
    PredAt(space, orig, chain, k);
    ChainLinks(space, orig, chain);
    hide Chunks, PredsOf, EdgeAt, ChainOk;
    if k < 10 * c + 10 { EdgeIs(space, chain, k, c, k - 10 * c); } else { EdgeIs(space, chain, k, c + 1, 0); }
  }

  lemma ChainLinks(space: seq<EdgeStruct>, orig: nat, chain: seq<nat>)
    requires ChainOk(space, ManyPreds(orig), chain)
    ensures forall i | 0 <= i < |chain| :: chain[i] < |space|
    ensures forall i | 0 <= i < |chain| - 1 :: space[chain[i]].cont == Some(chain[i + 1])
  {
  }

  lemma PredAt(space: seq<EdgeStruct>, orig: nat, chain: seq<nat>, k: nat)
    requires ChainOk(space, ManyPreds(orig), chain) && orig < |space|
    requires k < space[orig].nEdges == |PredsOf(space, ManyPreds(orig), chain)|
    ensures k < 10 * |chain| && forall i | 0 <= i < |chain| :: chain[i] < |space|
    ensures PredsOf(space, ManyPreds(orig), chain)[k] == EdgeAt(space, chain, k)
  {
  }

  lemma EdgeIs(space: seq<EdgeStruct>, chain: seq<nat>, k: nat, c: nat, l: nat)
    requires k < 10 * |chain| && forall i | 0 <= i < |chain| :: chain[i] < |space|
    requires k == 10 * c + l && l < 10
    ensures c < |chain| && EdgeAt(space, chain, k) == space[chain[c]].edges[l]
  {
    assert k / 10 == c && k % 10 == l;
  }

  lemma NoPredsYet(space: seq<EdgeStruct>)
    ensures ChainOk(space, NoPred, []) && PredsOf(space, NoPred, []) == [] && Distinct([])
  {
  }

  lemma InTail(chain: seq<nat>, i: nat)
    requires i in chain && i != chain[0]
    ensures i in chain[1..]
  {
    var k :| 0 <= k < |chain| && chain[k] == i;
    assert chain[1..][k - 1] == i;
  }

  /** A chain cut down to its first structure, without edges; the rest is a list of its own. */
  lemma Shortened(space: seq<EdgeStruct>, ptr: BackPtr, chain: seq<nat>)
    requires ChainOk(space, ptr, chain) && ptr.ManyPreds?
    ensures ptr.be < |space| && chain[0] == ptr.be && ptr.be !in chain[1..]
    ensures forall s: EdgeStruct | s.nEdges == 0 && s.cont.None? ::
              var space' := space[ptr.be := s];
              && ChainOk(space', ptr, [ptr.be]) && PredsOf(space', ptr, [ptr.be]) == [] && Distinct([])
              && Linked(space', space[ptr.be].cont, chain[1..])
    ensures space[ptr.be].cont.None? <==> chain[1..] == []
  {
    var rest := chain[1..];
    forall s: EdgeStruct | s.nEdges == 0 && s.cont.None?
      ensures Linked(space[ptr.be := s], space[ptr.be].cont, rest)
    {
      ListTail(space, Some(ptr.be), chain);
      ListUntouched(space, space[ptr.be := s.(nEdges := space[ptr.be].nEdges)], space[ptr.be].cont, rest, {ptr.be});
    }
  }

  function Elements(chain: seq<nat>): set<nat> {
    set i | i in chain
  }

  lemma ListsJoined(space: seq<EdgeStruct>, p: nat, chain: seq<nat>, avail: Option<nat>, free: seq<nat>)
    requires chain != [] && Linked(space, Some(p), chain) && Linked(space, avail, free)
    requires forall i | i in chain :: i !in free
    ensures var last := chain[|chain| - 1];
            last < |space| && Linked(space[last := space[last].(cont := avail)], Some(p), chain + free)
  {
    var last := chain[|chain| - 1];
    var space', both := space[last := space[last].(cont := avail)], chain + free;
    forall k | 0 <= k < |both| ensures both[k] < |space'| && space'[both[k]].cont == At(both, k + 1) {
      if k >= |chain| {
        assert both[k] == free[k - |chain|] && free[k - |chain|] in free && last in chain;
      } else if k < |chain| - 1 {
        assert chain[k] != last;
      }
    }
    forall k, l | 0 <= k < l < |both| ensures both[k] != both[l] {
      if k < |chain| <= l { assert both[k] in chain && both[l] in free; }
    }
  }

  lemma DistinctMore(preds: seq<Obj>, p: Obj)
    requires Distinct(preds) && p !in preds
    ensures Distinct(preds + [p])
  {
  }

  lemma FirstListed(space: seq<EdgeStruct>, ptr: BackPtr, chain: seq<nat>)
    requires ChainOk(space, ptr, chain) && ptr.ManyPreds?
    ensures ptr.be in chain && (forall i | i in chain :: i < |space|) && |chain| == Chunks(space[ptr.be].nEdges)
  {
    assert chain[0] == ptr.be;
  }

  lemma NoChain(space: seq<EdgeStruct>, ptr: BackPtr, chain: seq<nat>)
    requires ChainOk(space, ptr, chain)
    ensures chain == [] <==> !ptr.ManyPreds?
  {
  }

  lemma FirstStruct(space: seq<EdgeStruct>, ptr: BackPtr, chain: seq<nat>, space': seq<EdgeStruct>, be: nat)
    requires ChainOk(space, ptr, chain) && !ptr.ManyPreds? && be < |space'| && space'[be].cont.None?
    requires if ptr.NoPred? then space'[be].nEdges == 0 else space'[be].nEdges == 1 && space'[be].edges[0] == ptr.q
    ensures ChainOk(space', ManyPreds(be), [be]) && PredsOf(space', ManyPreds(be), [be]) == PredsOf(space, ptr, chain)
  {
  }
}
