/** The persistent vector (src/Vector.c:412-544) and its agreement with a sequence. */
module PersistentVector {
  import opened Bits
  import opened VectorTrie

  datatype Outcome<+T> = Ok(value: T) | IllegalState | IndexOutOfBounds

  /** `tail` lists the live cells of the tail array. */
  datatype Vector = Vector(count: nat, shift: nat, root: Node, tail: seq<Elem>)

  const EmptyVector := Vector(0, LOG_NODE_SIZE, EmptyNode, [])

  /** `count <= 32 ? 0 : (count - 1) & ~BITMASK` */
  function Tailoff(count: nat): (t: nat)
    ensures t <= count && t % NODE_SIZE == 0
    ensures count > 0 ==> 1 <= count - t <= NODE_SIZE
    ensures count == 0 ==> t == 0
  {
    if count <= NODE_SIZE then 0 else (count - 1) / NODE_SIZE * NODE_SIZE
  }

  /** The number of leaves in the trie. */
  function Leaves(count: nat): nat {
    Tailoff(count) / NODE_SIZE
  }

  /** The trie is left-packed below a root whose shift is the least that fits, and the tail holds
      the elements after the last full leaf. */
  predicate Valid(v: Vector) {
    && IsLevel(v.shift) && v.shift >= LOG_NODE_SIZE
    && |v.tail| == v.count - Tailoff(v.count)
    && Packed(v.root, v.shift, Leaves(v.count))
    && (v.shift > LOG_NODE_SIZE ==> Leaves(v.count) > Pow2(v.shift - LOG_NODE_SIZE))
  }

  lemma EmptyValid()
    ensures Valid(EmptyVector)
  {
  }

  /** In the whole trie, the leaf of index `i` is number `i / 32`. */
  lemma LeafPosIsQuotient(i: nat, shift: nat)
    requires i / NODE_SIZE < Pow2(shift)
    ensures LeafPos(i, shift) == i / NODE_SIZE
  {
    LowAll(i / NODE_SIZE, shift);
  }

  lemma RootLeafPos(v: Vector, i: nat)
    requires Valid(v) && i < Tailoff(v.count)
    ensures LeafPos(i, v.shift) == i / NODE_SIZE < Leaves(v.count)
  {
    LeafPosIsQuotient(i, v.shift);
  }

  /** `nthVector`, inside its bounds. */
  function Nth(v: Vector, i: nat): Elem
    requires Valid(v) && i < v.count
  {
    if i >= Tailoff(v.count) then v.tail[i % NODE_SIZE]
    else
      RootLeafPos(v, i);
      Get(v.root, v.shift, Leaves(v.count), i)
  }

  /** The sequence a vector stands for. */
  function Elems(v: Vector): (s: seq<Elem>)
    requires Valid(v)
    ensures |s| == v.count
    ensures forall i | 0 <= i < v.count :: s[i] == Nth(v, i)
  {
    seq(v.count, i requires 0 <= i < v.count => Nth(v, i))
  }

  // ---- conj ----

  /** The trie with the full tail as its next leaf: a new root when the old one is full. */
  function PushRoot(v: Vector): (r: (Node, nat))
    requires Valid(v) && v.count - Tailoff(v.count) == NODE_SIZE
    ensures IsLevel(r.1) && Packed(r.0, r.1, Leaves(v.count) + 1)
  {
    var leaf := Leaf(v.tail);
    FullTail(v.count);
    ShrFive(v.count);
    if Shr(v.count, LOG_NODE_SIZE) > Pow2(v.shift) then
      GrownRootPacked(v.root, v.shift, leaf);
      (GrownRoot(v.root, v.shift, leaf), v.shift + LOG_NODE_SIZE)
    else (PushInside(v), v.shift)
  }

  function PushInside(v: Vector): (r: Node)
    requires Valid(v) && v.count - Tailoff(v.count) == NODE_SIZE && Leaves(v.count) < Pow2(v.shift)
    ensures Packed(r, v.shift, Leaves(v.count) + 1)
  {
    FullTail(v.count);
    LeafPosIsQuotient(v.count - 1, v.shift);
    PushTail(v.count, v.shift, v.root, Leaf(v.tail))
  }

  function GrownRoot(root: Node, shift: nat, leaf: Node): Node
    requires IsLevel(shift)
  {
    Inner(NoKids()[0 := root][1 := NewPath(shift, leaf)])
  }

  lemma FullTail(count: nat)
    requires count - Tailoff(count) == NODE_SIZE
    ensures count == NODE_SIZE * (Leaves(count) + 1)
    ensures count / NODE_SIZE == Leaves(count) + 1 && (count - 1) / NODE_SIZE == Leaves(count)
    ensures Tailoff(count + 1) == count && Leaves(count + 1) == Leaves(count) + 1
  {
  }

  lemma ShrFive(i: nat)
    ensures Shr(i, 5) == i / NODE_SIZE
  {
    Shr32(i, 5);
  }

  lemma {:induction false} ShlOne(level: nat)
    ensures Shl(1, level) == Pow2(level) && Shl(0, level) == 0
  {
    if level > 0 { ShlOne(level - 1); }
  }

  /** When a root is full, the new root has it as first child and the new path as second. */
  lemma GrownShares(shift: nat, j: nat)
    ensures Share(Pow2(shift) + 1, shift + 5, j) == if j == 0 then Pow2(shift) else if j == 1 then 1 else 0
  {
    ShlOne(shift);
    if j > 1 { ShlMonotone(1, j, shift); }
  }

  lemma GrownRootPacked(root: Node, shift: nat, leaf: Node)
    requires IsLevel(shift) && Packed(root, shift, Pow2(shift)) && Packed(leaf, 0, 1)
    ensures Packed(GrownRoot(root, shift, leaf), shift + 5, Pow2(shift) + 1)
  {
    NewPathPacked(shift, leaf);
    Pow2Monotone(shift, shift + 5);
    forall j: nat | j < NODE_SIZE
      ensures PackedKid(GrownRoot(root, shift, leaf).kids[j], shift, Share(Pow2(shift) + 1, shift + 5, j))
    {
      GrownShares(shift, j);
    }
  }

  function Conj(v: Vector, x: Elem): (r: Vector)
    requires Valid(v)
    ensures Valid(r)
  {
    if v.count - Tailoff(v.count) < NODE_SIZE then
      Vector(v.count + 1, v.shift, v.root, v.tail + [x])
    else
      var p := PushRoot(v);
      FullTail(v.count);
      ShrFive(v.count);
      Vector(v.count + 1, p.1, p.0, [x])
  }

  lemma GrownRootLeaf(root: Node, shift: nat, leaf: Node, i: nat)
    requires IsLevel(shift) && Packed(root, shift, Pow2(shift)) && Packed(leaf, 0, 1)
    requires i / NODE_SIZE <= Pow2(shift)
    ensures Packed(GrownRoot(root, shift, leaf), shift + 5, Pow2(shift) + 1) && LeafPos(i, shift + 5) < Pow2(shift) + 1
    ensures i / NODE_SIZE < Pow2(shift) ==>
              LeafPos(i, shift) < Pow2(shift) &&
              LeafFor(GrownRoot(root, shift, leaf), shift + 5, Pow2(shift) + 1, i) ==
                LeafFor(root, shift, Pow2(shift), i)
    ensures i / NODE_SIZE == Pow2(shift) ==>
              LeafFor(GrownRoot(root, shift, leaf), shift + 5, Pow2(shift) + 1, i) == leaf
  {
    GrownRootPacked(root, shift, leaf);
    Pow2Monotone(shift, shift + 5);
    LeafPosIsQuotient(i, shift + 5);
    var j := Sub(i, shift + 5);
    Descend(i, shift + 5);
    DescendInto(i, shift + 5, Pow2(shift) + 1);
    GrownShares(shift, j);
    ShlOne(shift);
    NewPathPacked(shift, leaf);
    if i / NODE_SIZE == Pow2(shift) {
      NewPathLeaf(shift, leaf, i);
    }
  }

  lemma PushRootLeaf(v: Vector, i: nat)
    requires Valid(v) && v.count - Tailoff(v.count) == NODE_SIZE && i < v.count
    ensures LeafPos(i, PushRoot(v).1) < Leaves(v.count) + 1
    ensures Get(PushRoot(v).0, PushRoot(v).1, Leaves(v.count) + 1, i) == Nth(v, i)
  {
    FullTail(v.count);
    ShrFive(v.count);
    if Leaves(v.count) == Pow2(v.shift) {
      hide Pow2, Low, Shl, Shr, Share;
      GrownRootLeaf(v.root, v.shift, Leaf(v.tail), i);
    } else {
      hide Pow2, Low, Shl, Shr, Share;
      PushInsideLeaf(v, i);
    }
  }

  lemma PushInsideLeaf(v: Vector, i: nat)
    requires Valid(v) && v.count - Tailoff(v.count) == NODE_SIZE && Leaves(v.count) < Pow2(v.shift) && i < v.count
    ensures LeafPos(i, v.shift) < Leaves(v.count) + 1
    ensures Get(PushInside(v), v.shift, Leaves(v.count) + 1, i) == Nth(v, i)
  {
    hide Pow2, Low, Shl, Shr, Share;
    FullTail(v.count);
    LeafPosIsQuotient(v.count - 1, v.shift);
    LeafPosIsQuotient(i, v.shift);
    PushTailLeaf(v.count, v.shift, v.root, Leaf(v.tail), i);
  }

  lemma ConjElems(v: Vector, x: Elem)
    requires Valid(v)
    ensures Elems(Conj(v, x)) == Elems(v) + [x]
  {
    var r := Conj(v, x);
    forall i: nat | i < r.count ensures Nth(r, i) == (Elems(v) + [x])[i] {
      if v.count - Tailoff(v.count) == NODE_SIZE {
        FullTail(v.count);
        if i < v.count { PushRootLeaf(v, i); }
      } else {
        NotFull(v.count);
      }
    }
  }

  lemma NotFull(count: nat)
    requires count - Tailoff(count) < NODE_SIZE
    ensures Tailoff(count + 1) == Tailoff(count) && count % NODE_SIZE == count - Tailoff(count)
  {
  }

  // ---- assoc ----

  function AssocN(v: Vector, n: nat, val: Elem): (r: Outcome<Vector>)
    requires Valid(v)
    ensures r.Ok? ==> Valid(r.value)
  {
    if n < v.count then
      if n >= Tailoff(v.count) then Ok(v.(tail := v.tail[n % NODE_SIZE := val]))
      else
        RootLeafPos(v, n);
        Ok(v.(root := DoAssoc(v.shift, v.root, Leaves(v.count), n, val)))
    else if n == v.count then Ok(Conj(v, val))
    else IndexOutOfBounds
  }

  lemma AssocNElems(v: Vector, n: nat, val: Elem)
    requires Valid(v)
    ensures n < v.count ==> AssocN(v, n, val).Ok? && Elems(AssocN(v, n, val).value) == Elems(v)[n := val]
    ensures n == v.count ==> AssocN(v, n, val).Ok? && Elems(AssocN(v, n, val).value) == Elems(v) + [val]
    ensures n > v.count ==> AssocN(v, n, val) == IndexOutOfBounds
  {
    if n < v.count {
      var r := AssocN(v, n, val).value;
      forall i: nat | i < v.count ensures Nth(r, i) == Elems(v)[n := val][i] {
        if n < Tailoff(v.count) && i < Tailoff(v.count) {
          RootLeafPos(v, n);
          RootLeafPos(v, i);
          DoAssocLeaf(v.shift, v.root, Leaves(v.count), n, val, i);
        }
      }
    } else if n == v.count {
      ConjElems(v, val);
    }
  }

  // ---- pop ----

  /** The trie without its last leaf. */
  function PoppedTrie(v: Vector): (r: Node)
    requires Valid(v) && v.count > NODE_SIZE && v.count - Tailoff(v.count) == 1
    ensures Packed(r, v.shift, Leaves(v.count) - 1)
  {
    LoneTail(v.count);
    LeafPosIsQuotient(v.count - 2, v.shift);
    var popped := PopTail(v.count, v.shift, v.root);
    NilShare(popped, v.shift, Leaves(v.count) - 1);
    if popped == Nil then EmptyNode else popped
  }

  /** A root left with a single child gives way to the child. */
  function PopRoot(v: Vector): (r: (Node, nat))
    requires Valid(v) && v.count > NODE_SIZE && v.count - Tailoff(v.count) == 1
    ensures IsLevel(r.1) && r.1 >= LOG_NODE_SIZE && Packed(r.0, r.1, Leaves(v.count) - 1)
    ensures r.1 > LOG_NODE_SIZE ==> Leaves(v.count) - 1 > Pow2(r.1 - LOG_NODE_SIZE)
  {
    Collapse(PoppedTrie(v), v.shift, Leaves(v.count) - 1)
  }

  function Collapse(root: Node, shift: nat, k: nat): (r: (Node, nat))
    requires IsLevel(shift) && shift >= LOG_NODE_SIZE && Packed(root, shift, k)
    requires shift > LOG_NODE_SIZE ==> k >= Pow2(shift - LOG_NODE_SIZE)
    ensures IsLevel(r.1) && r.1 >= LOG_NODE_SIZE && Packed(r.0, r.1, k)
    ensures r.1 > LOG_NODE_SIZE ==> k > Pow2(r.1 - LOG_NODE_SIZE)
  {
    if shift > LOG_NODE_SIZE && root.kids[1] == Nil then
      CollapsedRoot(root, shift, k);
      (root.kids[0], shift - LOG_NODE_SIZE)
    else
      UncollapsedRoot(root, shift, k);
      (root, shift)
  }

  lemma LoneTail(count: nat)
    requires count > NODE_SIZE && count - Tailoff(count) == 1
    ensures count == NODE_SIZE * Leaves(count) + 1 && (count - 2) / NODE_SIZE == Leaves(count) - 1
    ensures Leaves(count) > 0 && Tailoff(count - 1) == count - 1 - NODE_SIZE && Leaves(count - 1) == Leaves(count) - 1
  {
  }

  lemma CollapsedRoot(root: Node, shift: nat, k: nat)
    requires IsLevel(shift) && shift > LOG_NODE_SIZE && Packed(root, shift, k) && root.kids[1] == Nil
    requires k >= Pow2(shift - LOG_NODE_SIZE)
    ensures k == Pow2(shift - LOG_NODE_SIZE) && Packed(root.kids[0], shift - LOG_NODE_SIZE, k)
    ensures shift > 10 ==> k > Pow2(shift - 10)
  {
    ShlOne(shift - 5);
    PackedAt(root, shift, k, 0);
    PackedAt(root, shift, k, 1);
    if shift > 10 { Pow2Monotone(shift - 10, shift - 5); }
  }

  lemma UncollapsedRoot(root: Node, shift: nat, k: nat)
    requires IsLevel(shift) && shift >= LOG_NODE_SIZE && Packed(root, shift, k)
    ensures shift > LOG_NODE_SIZE && root.kids[1] != Nil ==> k > Pow2(shift - LOG_NODE_SIZE)
  {
    ShlOne(shift - 5);
    PackedAt(root, shift, k, 1);
  }

  /** The lone tail element goes, and the last leaf becomes the tail. */
  function PopLeaf(v: Vector): (r: Vector)
    requires Valid(v) && v.count > NODE_SIZE && v.count - Tailoff(v.count) == 1
    ensures Valid(r) && r.count == v.count - 1
  {
    LoneTail(v.count);
    var p := PopRoot(v);
    Vector(v.count - 1, p.1, p.0, LastLeaf(v))
  }

  /** `arrayForV(v, count - 2)` */
  function LastLeaf(v: Vector): (r: seq<Elem>)
    requires Valid(v) && v.count > NODE_SIZE && v.count - Tailoff(v.count) == 1
    ensures |r| == NODE_SIZE
  {
    LoneTail(v.count);
    RootLeafPos(v, v.count - 2);
    LeafFor(v.root, v.shift, Leaves(v.count), v.count - 2).elems
  }

  function Pop(v: Vector): (r: Outcome<Vector>)
    requires Valid(v)
    ensures r.Ok? ==> Valid(r.value)
  {
    if v.count == 0 then IllegalState
    else if v.count == 1 then Ok(EmptyVector)
    else if v.count - Tailoff(v.count) > 1 then
      Ok(Vector(v.count - 1, v.shift, v.root, v.tail[..|v.tail| - 1]))
    else Ok(PopLeaf(v))
  }

  lemma PopRootLeaf(v: Vector, i: nat)
    requires Valid(v) && v.count > NODE_SIZE && v.count - Tailoff(v.count) == 1
    requires i / NODE_SIZE < Leaves(v.count) - 1
    ensures LeafPos(i, PopRoot(v).1) < Leaves(v.count) - 1 && LeafPos(i, v.shift) < Leaves(v.count)
    ensures Get(PopRoot(v).0, PopRoot(v).1, Leaves(v.count) - 1, i) == Get(v.root, v.shift, Leaves(v.count), i)
  {
    PoppedLeaf(v, i);
    hide Pow2, Shl, Shr, Low, PoppedTrie, Collapse, Packed;
    CollapseLeaf(PoppedTrie(v), v.shift, Leaves(v.count) - 1, i);
  }

  lemma PoppedLeaf(v: Vector, i: nat)
    requires Valid(v) && v.count > NODE_SIZE && v.count - Tailoff(v.count) == 1
    requires i / NODE_SIZE < Leaves(v.count) - 1
    ensures LeafPos(i, v.shift) < Leaves(v.count) - 1
    ensures LeafFor(PoppedTrie(v), v.shift, Leaves(v.count) - 1, i) == LeafFor(v.root, v.shift, Leaves(v.count), i)
    ensures v.shift > LOG_NODE_SIZE ==> Leaves(v.count) - 1 >= Pow2(v.shift - LOG_NODE_SIZE)
  {
    hide Pow2, Shl, Shr, Low, Share;
    LoneTail(v.count);
    LeafPosIsQuotient(v.count - 2, v.shift);
    LeafPosIsQuotient(i, v.shift);
    PopTailLeaf(v.count, v.shift, v.root, i);
  }

  /** A root that gives way keeps its leaves. */
  lemma CollapseLeaf(root: Node, shift: nat, k: nat, i: nat)
    requires IsLevel(shift) && shift >= LOG_NODE_SIZE && Packed(root, shift, k) && LeafPos(i, shift) < k
    requires shift > LOG_NODE_SIZE ==> k >= Pow2(shift - LOG_NODE_SIZE)
    ensures LeafPos(i, Collapse(root, shift, k).1) < k
    ensures LeafFor(Collapse(root, shift, k).0, Collapse(root, shift, k).1, k, i) == LeafFor(root, shift, k, i)
  {
    hide Pow2, Shl, Shr, Low;
    if shift > LOG_NODE_SIZE && root.kids[1] == Nil {
      CollapsedRoot(root, shift, k);
      Descend(i, shift);
      FirstChild(shift - 5, Sub(i, shift));
      FirstShare(k, shift);
    }
  }

  lemma FirstShare(k: nat, level: nat)
    requires level >= LOG_NODE_SIZE && k <= Pow2(level - LOG_NODE_SIZE)
    ensures Share(k, level, 0) == k
  {
    ShlOne(level - 5);
  }

  lemma PopElems(v: Vector)
    requires Valid(v)
    ensures v.count == 0 ==> Pop(v) == IllegalState
    ensures v.count > 0 ==> Pop(v).Ok? && Elems(Pop(v).value) == Elems(v)[..v.count - 1]
  {
    hide Pow2, Shl, Shr, Low, Share, PopLeaf;
    if v.count > 0 {
      var r := Pop(v).value;
      forall i: nat | i < v.count - 1 ensures Nth(r, i) == Elems(v)[i] {
        if v.count > 1 && v.count - Tailoff(v.count) == 1 {
          PopLeafNth(v, i);
        } else if v.count > 1 {
          NotFull(v.count - 1);
        }
      }
    }
  }

  lemma PopLeafNth(v: Vector, i: nat)
    requires Valid(v) && v.count > NODE_SIZE && v.count - Tailoff(v.count) == 1 && i < v.count - 1
    ensures PopLeaf(v).count == v.count - 1 && Nth(PopLeaf(v), i) == Nth(v, i)
  {
    hide Pow2, Shl, Shr, Low, Share, PopRoot;
    LoneTail(v.count);
    RootLeafPos(v, v.count - 2);
    RootLeafPos(v, i);
    if i < Tailoff(v.count - 1) {
      PopRootLeaf(v, i);
    } else {
      SameLeaf(v.root, v.shift, Leaves(v.count), v.count - 2, i);
    }
  }

  // ---- Runs ----

  datatype Op = ConjOp(x: Elem) | AssocOp(n: nat, x: Elem) | PopOp

  function Step(v: Vector, op: Op): (r: Outcome<Vector>)
    requires Valid(v)
    ensures r.Ok? ==> Valid(r.value)
  {
    match op
    case ConjOp(x) => Ok(Conj(v, x))
    case AssocOp(n, x) => AssocN(v, n, x)
    case PopOp => Pop(v)
  }

  function SeqStep(s: seq<Elem>, op: Op): Outcome<seq<Elem>> {
    match op
    case ConjOp(x) => Ok(s + [x])
    case AssocOp(n, x) => if n < |s| then Ok(s[n := x]) else if n == |s| then Ok(s + [x]) else IndexOutOfBounds
    case PopOp => if s == [] then IllegalState else Ok(s[..|s| - 1])
  }

  function Run(v: Vector, ops: seq<Op>): (r: Outcome<Vector>)
    requires Valid(v)
    ensures r.Ok? ==> Valid(r.value)
    decreases |ops|
  {
    if ops == [] then Ok(v)
    else
      var r := Step(v, ops[0]);
      if r.Ok? then Run(r.value, ops[1..]) else r
  }

  function SeqRun(s: seq<Elem>, ops: seq<Op>): Outcome<seq<Elem>>
    decreases |ops|
  {
    if ops == [] then Ok(s)
    else
      var r := SeqStep(s, ops[0]);
      if r.Ok? then SeqRun(r.value, ops[1..]) else r
  }

  /** What a vector outcome stands for. */
  function ElemsOf(r: Outcome<Vector>): Outcome<seq<Elem>>
    requires r.Ok? ==> Valid(r.value)
  {
    match r
    case Ok(v) => Ok(Elems(v))
    case IllegalState => IllegalState
    case IndexOutOfBounds => IndexOutOfBounds
  }

  /** Any run of conj, assoc and pop does to the vector what it does to the sequence: the same
      elements, or the same error at the same operation. */
  lemma {:induction false} RunElems(v: Vector, ops: seq<Op>)
    requires Valid(v)
    ensures ElemsOf(Run(v, ops)) == SeqRun(Elems(v), ops)
    decreases |ops|
  {
    if ops != [] {
      match ops[0] {
        case ConjOp(x) => ConjElems(v, x);
        case AssocOp(n, x) => AssocNElems(v, n, x);
        case PopOp => PopElems(v);
      }
      var r := Step(v, ops[0]);
      assert ElemsOf(r) == SeqStep(Elems(v), ops[0]);
      if r.Ok? { RunElems(r.value, ops[1..]); }
    }
  }

  lemma ShiftDetermined(v: Vector, w: Vector)
    requires Valid(v) && Valid(w) && v.count == w.count
    ensures v.shift == w.shift
  {
    if v.shift < w.shift { Pow2Monotone(v.shift, w.shift - 5); }
    if w.shift < v.shift { Pow2Monotone(w.shift, v.shift - 5); }
  }

  /** A vector is determined by what it holds: whatever operations led to it, one sequence has one
      valid vector. */
  lemma Determined(v: Vector, w: Vector)
    requires Valid(v) && Valid(w) && Elems(v) == Elems(w)
    ensures v == w
  {
    hide Pow2, Low, Shl, Packed;
    assert |Elems(v)| == v.count && |Elems(w)| == w.count;
    ShiftDetermined(v, w);
    var k, t := Leaves(v.count), Tailoff(v.count);
    assert v.tail == w.tail by {
      forall e: nat | e < |v.tail| ensures v.tail[e] == w.tail[e] {
        TailIndex(v.count, e);
        assert Elems(v)[t + e] == Nth(v, t + e) && Elems(w)[t + e] == Nth(w, t + e);
      }
    }
    forall i: nat | LeafPos(i, v.shift) < k ensures Get(v.root, v.shift, k, i) == Get(w.root, w.shift, k, i) {
      var i' := LeafPos(i, v.shift) * 32 + i % 32;
      assert i' / 32 == LeafPos(i, v.shift) && i' % 32 == i % 32;
      assert i' < t;
      RootLeafPos(v, i');
      assert Elems(v)[i'] == Nth(v, i') && Elems(w)[i'] == Nth(w, i');
      LeafByPos(v.root, v.shift, k, i, i');
      LeafByPos(w.root, w.shift, k, i, i');
    }
    VectorTrie.Determined(v.root, w.root, v.shift, k);
  }

  /** One element after the other by `conj`. */
  function ConjAll(v: Vector, xs: seq<Elem>): (r: Vector)
    requires Valid(v)
    ensures Valid(r)
    decreases |xs|
  {
    if xs == [] then v else ConjAll(Conj(v, xs[0]), xs[1..])
  }

  lemma {:induction false} ConjAllElems(v: Vector, xs: seq<Elem>)
    requires Valid(v)
    ensures Elems(ConjAll(v, xs)) == Elems(v) + xs
    decreases |xs|
  {
    if xs == [] {
      assert Elems(v) + xs == Elems(v);
    } else {
      ConjElems(v, xs[0]);
      ConjAllElems(Conj(v, xs[0]), xs[1..]);
      assert Elems(v) + [xs[0]] + xs[1..] == Elems(v) + xs;
    }
  }

  /** So a vector built in whatever way is the one that `conj` builds from the empty vector. */
  lemma BuiltByConj(v: Vector)
    requires Valid(v)
    ensures v == ConjAll(EmptyVector, Elems(v))
  {
    EmptyValid();
    ConjAllElems(EmptyVector, Elems(v));
    assert Elems(EmptyVector) == [];
    Determined(v, ConjAll(EmptyVector, Elems(v)));
  }

  lemma TailIndex(count: nat, e: nat)
    requires Tailoff(count) + e < count
    ensures (Tailoff(count) + e) % NODE_SIZE == e
  {
  }

  // ---- The descent loop ----

  /** `arrayForV`: walk down one level per iteration. */
  method ArrayFor(v: Vector, i: nat) returns (elems: seq<Elem>)
    requires Valid(v) && i < v.count
    ensures i % NODE_SIZE < |elems| && elems[i % NODE_SIZE] == Nth(v, i)
  {
    hide Pow2, Shl, Shr, Low, Share;
    if i >= Tailoff(v.count) { return v.tail; }
    var node, level: nat := v.root, v.shift;
    ghost var k := Leaves(v.count);
    RootLeafPos(v, i);
    while level > 0
      invariant IsLevel(level) && Packed(node, level, k) && LeafPos(i, level) < k
      invariant LeafFor(node, level, k, i) == LeafFor(v.root, v.shift, Leaves(v.count), i)
    {
      DescendInto(i, level, k);
      PackedAt(node, level, k, Sub(i, level));
      k := Share(k, level, Sub(i, level));
      node, level := node.kids[Sub(i, level)], level - LOG_NODE_SIZE;
    }
    return node.elems;
  }
}
