/** The transient vector and its in-place operations (src/Vector.c:189-215, 278-395). */
module TransientVector {
  import opened Bits
  import opened VectorTrie
  import opened Wrappers
  import P = PersistentVector

  /** A trie node on the heap: a leaf uses `elems`, an inner node `kids`. `model` is the value of
      the subtrie and `Repr` the nodes it consists of. */
  class HeapNode {
    var editable: bool
    var threadId: nat
    var elems: seq<Elem>
    var kids: seq<HeapNode?>
    ghost var model: Node
    ghost var Repr: set<HeapNode>

    ghost predicate Valid(level: nat)
      requires IsLevel(level)
      reads this, Repr
      ensures Valid(level) ==> this in Repr
      decreases level, 1
    {
      && this in Repr
      && (level == 0 ==> model == Leaf(elems))
      && (level > 0 ==> ValidKids(level, NODE_SIZE))
    }

    /** Every cell but `skip` holds nothing or a valid child of its own. */
    ghost predicate ValidKids(level: nat, skip: nat)
      requires IsLevel(level) && level > 0
      reads this, Repr
      decreases level, 0
    {
      && this in Repr && |kids| == NODE_SIZE && model.Inner? && |model.kids| == NODE_SIZE
      && (forall j | 0 <= j < NODE_SIZE && j != skip :: kids[j] == null <==> model.kids[j] == Nil)
      && (forall j | 0 <= j < NODE_SIZE && j != skip && kids[j] != null ::
            && kids[j] in Repr && kids[j].Repr <= Repr && this !in kids[j].Repr
            && kids[j].Valid(level - LOG_NODE_SIZE) && kids[j].model == model.kids[j])
      && (forall i, j | 0 <= i < j < NODE_SIZE && i != skip && j != skip && kids[i] != null && kids[j] != null ::
            kids[i].Repr !! kids[j].Repr)
    }

    constructor NewLeaf(editable: bool, threadId: nat, elems: seq<Elem>)
      ensures Valid(0) && model == Leaf(elems) && fresh(Repr)
      ensures this.editable == editable && this.threadId == threadId
    {
      this.editable, this.threadId, this.elems, kids := editable, threadId, elems, [];
      model, Repr := Leaf(elems), {this};
    }

    /** `NewNode` with no cells. */
    constructor NewEmpty(editable: bool, threadId: nat, ghost level: nat)
      requires IsLevel(level) && level > 0
      ensures Valid(level) && model == EmptyNode && Repr == {this} && |kids| == NODE_SIZE
      ensures forall j | 0 <= j < NODE_SIZE :: kids[j] == null
      ensures this.editable == editable && this.threadId == threadId
    {
      this.editable, this.threadId, elems := editable, threadId, [];
      kids := seq(NODE_SIZE, _ => null);
      model, Repr := EmptyNode, {this};
      new;
      assert ValidKids(level, NODE_SIZE);
    }

    /** `NewNode` with the cells of another node. */
    constructor Copy(threadId: nat, node: HeapNode, ghost level: nat)
      requires IsLevel(level) && level > 0 && node.Valid(level)
      ensures Valid(level) && model == node.model && Repr == node.Repr - {node} + {this}
      ensures editable && this.threadId == threadId && kids == node.kids
    {
      editable, this.threadId, elems, kids := true, threadId, node.elems, node.kids;
      model, Repr := node.model, node.Repr - {node} + {this};
    }

    /** `array[idx] = kid` */
    method SetKid(ghost level: nat, idx: nat, kid: HeapNode)
      requires IsLevel(level) && level > 0 && idx < NODE_SIZE && ValidKids(level, idx)
      requires kid.Valid(level - LOG_NODE_SIZE) && kid.model != Nil && this !in kid.Repr
      requires forall j | 0 <= j < NODE_SIZE && j != idx && kids[j] != null :: kids[j].Repr !! kid.Repr
      modifies this
      ensures Valid(level) && kids == old(kids)[idx := kid]
      ensures model == Inner(old(model).kids[idx := kid.model]) && Repr == old(Repr) + kid.Repr
      ensures editable == old(editable) && threadId == old(threadId)
    {
      kids := kids[idx := kid];
      model := Inner(model.kids[idx := kid.model]);
      Repr := Repr + kid.Repr;
    }

    method Freeze(ghost level: nat)
      requires IsLevel(level) && level > 0 && Valid(level)
      modifies this`editable
      ensures Valid(level) && !editable
    {
      editable := false;
      assert ValidKids(level, NODE_SIZE);
    }

    ghost predicate Owned(threadId: nat)
      reads this
    {
      editable && this.threadId == threadId
    }
  }

  method NewPathTV(threadId: nat, level: nat, node: HeapNode) returns (r: HeapNode)
    requires IsLevel(level) && node.Valid(0)
    ensures r.Valid(level) && r.model == NewPath(level, node.model)
    ensures node in r.Repr && node.Repr <= r.Repr && fresh(r.Repr - node.Repr)
    decreases level
  {
    if level == 0 { return node; }
    var child := NewPathTV(threadId, level - LOG_NODE_SIZE, node);
    r := new HeapNode.NewEmpty(true, threadId, level);
    NewPathNotNil(level - LOG_NODE_SIZE, node.model);
    r.SetKid(level, 0, child);
  }

  lemma NewPathNotNil(level: nat, node: Node)
    requires IsLevel(level) && node != Nil
    ensures NewPath(level, node) != Nil
  {
  }

  method EnsureEditable(threadId: nat, node: HeapNode, ghost level: nat) returns (r: HeapNode)
    requires IsLevel(level) && level > 0 && node.Valid(level)
    ensures r.Valid(level) && r.Owned(threadId) && r.model == node.model && r.kids == node.kids
    ensures node.Owned(threadId) ==> r == node
    ensures !node.Owned(threadId) ==> fresh(r) && r.Repr == node.Repr - {node} + {r}
  {
    if node.editable && node.threadId == threadId { return node; }
    r := new HeapNode.Copy(threadId, node, level);
  }

  /** `pushTailTV`: nodes of this owner are changed in place, every other node is left alone. */
  method PushTailTV(cnt: nat, threadId: nat, level: nat, parent: HeapNode, tail: HeapNode) returns (ret: HeapNode)
    requires IsLevel(level) && level >= LOG_NODE_SIZE && cnt > 0
    requires parent.Valid(level) && tail.Valid(0) && parent.Repr !! tail.Repr
    requires Packed(parent.model, level, LeafPos(cnt - 1, level)) && Packed(tail.model, 0, 1)
    modifies set n | n in parent.Repr && n.Owned(threadId)
    ensures ret.Valid(level) && ret.Owned(threadId)
    ensures ret.model == PushTail(cnt, level, old(parent.model), old(tail.model))
    ensures fresh(ret.Repr - old(parent.Repr) - tail.Repr)
    decreases level
  {
    hide Packed, Share, Pow2, Shr;
    ret := EnsureEditable(threadId, parent, level);
    var idx := Sub(cnt - 1, level);
    ShareOnPath(cnt - 1, level);
    PackedAt(parent.model, level, LeafPos(cnt - 1, level), idx);
    var inserted: HeapNode;
    if level == LOG_NODE_SIZE {
      inserted := tail;
    } else if parent.kids[idx] == null {
      inserted := NewPathTV(threadId, level - LOG_NODE_SIZE, tail);
      NewPathNotNil(level - LOG_NODE_SIZE, tail.model);
    } else {
      inserted := PushTailTV(cnt, threadId, level - LOG_NODE_SIZE, parent.kids[idx], tail);
    }
    ret.SetKid(level, idx, inserted);
  }

  // ---- The persistent vector on the heap ----

  class HeapVector {
    const count: nat
    const shift: nat
    const root: HeapNode
    const tail: seq<Elem>

    constructor (count: nat, shift: nat, root: HeapNode, tail: seq<Elem>)
      ensures this.count == count && this.shift == shift && this.root == root && this.tail == tail
    {
      this.count, this.shift, this.root, this.tail := count, shift, root, tail;
    }

    ghost function AsVector(): P.Vector
      reads root
    {
      P.Vector(count, shift, root.model, tail)
    }

    ghost predicate Valid()
      reads root, root.Repr
    {
      P.Valid(AsVector()) && root.Valid(shift)
    }
  }

  class TransientVector {
    var count: nat
    var shift: nat
    var root: HeapNode
    var tail: seq<Elem>

    ghost function AsVector(): P.Vector
      reads this, root
    {
      P.Vector(count, shift, root.model, tail)
    }

    ghost predicate Valid()
      reads this, root, root.Repr
    {
      P.Valid(AsVector()) && root.Valid(shift)
    }

    constructor (count: nat, shift: nat, root: HeapNode, tail: seq<Elem>)
      ensures this.count == count && this.shift == shift && this.root == root && this.tail == tail
    {
      this.count, this.shift, this.root, this.tail := count, shift, root, tail;
    }

    /** `TransVecConj`. Only nodes of the root's owner change; vectors made of other nodes keep
        their elements. */
    method Conj(x: Elem)
      requires Valid() && root.editable
      modifies this, set n | n in root.Repr && n.Owned(root.threadId)
      ensures Valid() && root.editable && root.threadId == old(root.threadId)
      ensures AsVector() == P.Conj(old(AsVector()), x)
      ensures fresh(root.Repr - old(root.Repr))
    {
      ghost var v := AsVector();
      if count - P.Tailoff(count) < NODE_SIZE {
        tail := tail + [x];
      } else {
        root, shift := PushRoot();
        tail := [x];
      }
      count := count + 1;
      assert AsVector() == P.Conj(v, x);
    }

    /** The full tail becomes a leaf of the trie. */
    method PushRoot() returns (newRoot: HeapNode, newShift: nat)
      requires Valid() && root.editable && count - P.Tailoff(count) == NODE_SIZE
      modifies set n | n in root.Repr && n.Owned(root.threadId)
      ensures (newRoot.model, newShift) == P.PushRoot(old(AsVector()))
      ensures IsLevel(newShift) && newRoot.Valid(newShift)
      ensures newRoot.editable && newRoot.threadId == old(root.threadId)
      ensures fresh(newRoot.Repr - old(root.Repr))
    {
      P.FullTail(count);
      P.ShrFive(count);
      var tailNode := new HeapNode.NewLeaf(root.editable, root.threadId, tail);
      if Shr(count, LOG_NODE_SIZE) > Pow2(shift) {
        newRoot := Grow(root, shift, tailNode);
        newShift := shift + LOG_NODE_SIZE;
      } else {
        P.LeafPosIsQuotient(count - 1, shift);
        newRoot := PushTailTV(count, root.threadId, shift, root, tailNode);
        newShift := shift;
      }
    }

    /** `asPersistent` */
    method AsPersistent() returns (v: HeapVector)
      requires Valid() && root.editable
      modifies root`editable
      ensures v.Valid() && v.AsVector() == old(AsVector()) && !root.editable
    {
      root.Freeze(shift);
      v := new HeapVector(count, shift, root, tail);
    }
  }

  /** The new root made when the old one is full. */
  method Grow(root: HeapNode, shift: nat, tailNode: HeapNode) returns (r: HeapNode)
    requires IsLevel(shift) && root.Valid(shift) && root.model != Nil && tailNode.Valid(0)
    requires root.Repr !! tailNode.Repr
    ensures r.Valid(shift + LOG_NODE_SIZE) && r.editable == root.editable && r.threadId == root.threadId
    ensures r.model == P.GrownRoot(root.model, shift, tailNode.model)
    ensures fresh(r.Repr - root.Repr - tailNode.Repr)
  {
    var path := NewPathTV(root.threadId, shift, tailNode);
    NewPathNotNil(shift, tailNode.model);
    r := new HeapNode.NewEmpty(root.editable, root.threadId, shift + LOG_NODE_SIZE);
    r.SetKid(shift + LOG_NODE_SIZE, 0, root);
    r.SetKid(shift + LOG_NODE_SIZE, 1, path);
  }

  /** The tail that `asTransient` copies: it stops at the first null pointer. */
  function CopiedTail(tail: seq<Elem>): (r: seq<Elem>)
    ensures |r| == |tail|
  {
    if tail == [] then []
    else if tail[0] == None then seq(|tail|, _ => None)
    else [tail[0]] + CopiedTail(tail[1..])
  }

  /** Element by element: nothing behind a null pointer is copied. */
  lemma {:induction false} CopiedAt(tail: seq<Elem>, i: nat)
    requires i < |tail|
    ensures CopiedTail(tail)[i] == if None in tail[..i] then None else tail[i]
  {
    if tail[0] == None {
      assert i > 0 ==> tail[..i][0] == None;
    } else if i > 0 {
      CopiedAt(tail[1..], i - 1);
      assert tail[..i] == [tail[0]] + tail[1..][..i - 1];
    }
  }

  /** `asTransient` of a vector without a trie. */
  method AsTransient(v: HeapVector, self: nat) returns (trans: TransientVector)
    requires v.Valid() && v.root.model == EmptyNode && v.shift == LOG_NODE_SIZE && v.count == |v.tail| <= NODE_SIZE
    ensures fresh(trans) && trans.Valid() && trans.root.editable && fresh(trans.root.Repr)
    ensures trans.AsVector() == P.Vector(v.count, v.shift, EmptyNode, CopiedTail(v.tail))
  {
    var root := new HeapNode.NewEmpty(true, self, LOG_NODE_SIZE);
    var tail: seq<Elem> := seq(|v.tail|, _ => None);
    var i := 0;
    while i < |v.tail| && v.tail[i] != None
      invariant 0 <= i <= |v.tail| == |tail|
      invariant forall j | 0 <= j < i :: v.tail[j] != None
      invariant forall j | 0 <= j < |tail| :: tail[j] == if j < i then v.tail[j] else None
    {
      tail := tail[i := v.tail[i]];
      i := i + 1;
    }
    forall j | 0 <= j < |tail| ensures tail[j] == CopiedTail(v.tail)[j] {
      CopiedAt(v.tail, j);
      if i <= j { assert i == j || v.tail[..j][i] == None; }
    }
    assert tail == CopiedTail(v.tail);
    TailOnly(P.Vector(v.count, v.shift, EmptyNode, tail));
    trans := new TransientVector(v.count, v.shift, root, tail);
  }

  /** What `CreateVector` makes a vector of. */
  function Created(entries: seq<Elem>): seq<Elem> {
    if |entries| <= NODE_SIZE then entries else CopiedTail(entries[..NODE_SIZE]) + entries[NODE_SIZE..]
  }

  /** Exactly when those are the entries: there are at most 32 of them, or among the first 32 no null
      pointer comes before something else. */
  lemma CreateExact(entries: seq<Elem>)
    ensures Created(entries) == entries <==>
              |entries| <= NODE_SIZE || forall i, j | 0 <= i < j < NODE_SIZE && entries[i] == None :: entries[j] == None
  {
    if |entries| > NODE_SIZE {
      var tail := entries[..NODE_SIZE];
      forall j | 0 <= j < NODE_SIZE
        ensures Created(entries)[j] == entries[j] <==> None in tail[..j] ==> entries[j] == None
      {
        CopiedAt(tail, j);
      }
      assert entries == tail + entries[NODE_SIZE..];
      if Created(entries) == entries {
        forall i, j | 0 <= i < j < NODE_SIZE && entries[i] == None ensures entries[j] == None {
          assert tail[..j][i] == None;
        }
      }
      if forall i, j | 0 <= i < j < NODE_SIZE && entries[i] == None :: entries[j] == None {
        assert Created(entries) == entries;
      }
    }
  }

  /** A nil followed by 32 other entries: all of them but the last are lost. */
  lemma CreateLosesEntries(x: Item)
    ensures var entries := [None] + seq(NODE_SIZE, _ => Some(x));
            Created(entries) == seq(NODE_SIZE, _ => None) + [Some(x)] != entries
  {
    var entries: seq<Elem> := [None] + seq(NODE_SIZE, _ => Some(x));
    assert entries[..NODE_SIZE][0] == None && entries[NODE_SIZE..] == [Some(x)];
    assert Created(entries)[1] == None != entries[1];
  }

  /** `CreateVector`: the first 32 entries fill the tail directly, the others go through a transient.
      The vector is the one that `conj` builds, entry by entry. */
  method CreateVector(entries: seq<Elem>, self: nat) returns (v: HeapVector)
    ensures v.Valid() && P.Elems(v.AsVector()) == Created(entries)
    ensures v.AsVector() == P.ConjAll(P.EmptyVector, Created(entries))
  {
    hide P.Valid, P.ConjAll, CopiedTail;
    var cnt := if |entries| < NODE_SIZE then |entries| else NODE_SIZE;
    var root := new HeapNode.NewEmpty(false, self, LOG_NODE_SIZE);
    TailOnly(P.Vector(cnt, LOG_NODE_SIZE, EmptyNode, entries[..cnt]));
    v := new HeapVector(cnt, LOG_NODE_SIZE, root, entries[..cnt]);
    if |entries| <= NODE_SIZE {
      assert entries[..cnt] == entries;
    } else {
      var trans := AsTransient(v, self);
      TailOnly(trans.AsVector());
      ConjRest(trans, Created(entries));
      v := trans.AsPersistent();
    }
    P.BuiltByConj(v.AsVector());
  }

  /** A vector without leaves. */
  lemma TailOnly(v: P.Vector)
    requires v.count == |v.tail| <= NODE_SIZE && v.shift == LOG_NODE_SIZE && v.root == EmptyNode
    ensures P.Valid(v) && P.Elems(v) == v.tail
  {
  }

  /** The loop of `CreateVector` over the entries behind the first 32. */
  method ConjRest(trans: TransientVector, entries: seq<Elem>)
    requires trans.Valid() && trans.root.editable && |entries| > NODE_SIZE
    requires P.Elems(trans.AsVector()) == entries[..NODE_SIZE]
    modifies trans, trans.root.Repr
    ensures trans.Valid() && trans.root.editable
    ensures P.Elems(trans.AsVector()) == entries
    ensures fresh(trans.root.Repr - old(trans.root.Repr))
  {
    hide P.Valid;
    var i := NODE_SIZE;
    while i < |entries|
      invariant NODE_SIZE <= i <= |entries|
      invariant trans.Valid() && trans.root.editable && fresh(trans.root.Repr - old(trans.root.Repr))
      invariant P.Elems(trans.AsVector()) == entries[..i]
    {
      P.ConjElems(trans.AsVector(), entries[i]);
      trans.Conj(entries[i]);
      assert entries[..i] + [entries[i]] == entries[..i + 1];
      i := i + 1;
    }
    assert entries[..i] == entries;
  }
}
