/** The radix trie of the persistent vector (src/Vector.c:217-222, 437-454, 485-496, 528-559):
    path creation, pushing and popping a leaf, replacing an element.

    `level` is the shift at which a node is read: a leaf has level 0, a node of level `s > 0`
    picks its child with bits `s .. s + 5` of the index. Sizes of subtries count leaves of 32. */
module VectorTrie {
  import opened Bits
  import opened Wrappers

  const LOG_NODE_SIZE := 5
  const NODE_SIZE := 32

  type Item(==, !new)

  /** An element of a vector may be nil, which is the null pointer. */
  type Elem = Option<Item>

  /** `Nil` stands for a null pointer. */
  datatype Node = Nil | Leaf(elems: seq<Elem>) | Inner(kids: seq<Node>)

  function NoKids(): (kids: seq<Node>)
    ensures |kids| == NODE_SIZE
  {
    seq(NODE_SIZE, _ => Nil)
  }

  const EmptyNode := Inner(NoKids())

  /** `(i >> level) & BITMASK` */
  function Sub(i: nat, level: nat): (j: nat)
    ensures j < NODE_SIZE
  {
    Shr(i, level) % NODE_SIZE
  }

  predicate IsLevel(level: nat) {
    level % LOG_NODE_SIZE == 0
  }

  /** How many of `k` left-packed leaves fall to child `j` of a node of level `level`. */
  function Share(k: nat, level: nat, j: nat): nat
    requires level >= LOG_NODE_SIZE
  {
    var l := level - LOG_NODE_SIZE;
    if k <= Shl(j, l) then 0 else if k - Shl(j, l) <= Pow2(l) then k - Shl(j, l) else Pow2(l)
  }

  /** `node` holds `k` leaves packed to the left, with no spare nodes: every leaf is full and a
      child without leaves is absent. */
  predicate Packed(node: Node, level: nat, k: nat)
    requires IsLevel(level)
    decreases level, 0
  {
    if level == 0 then node.Leaf? && |node.elems| == NODE_SIZE && k == 1
    else
      && node.Inner? && |node.kids| == NODE_SIZE && k <= Pow2(level)
      && forall j: nat | j < NODE_SIZE :: PackedKid(node.kids[j], level - LOG_NODE_SIZE, Share(k, level, j))
  }

  predicate PackedKid(kid: Node, level: nat, k: nat)
    requires IsLevel(level)
    decreases level, 1
  {
    if k == 0 then kid == Nil else Packed(kid, level, k)
  }

  /** The number of leaves before the one of index `i` in the subtrie of level `level` on its path. */
  function LeafPos(i: nat, level: nat): nat {
    Low(i / NODE_SIZE, level)
  }

  // ---- Index arithmetic ----

  /** One step down the path of `i`: its leaf lies in child `Sub(i, level)`. */
  lemma Descend(i: nat, level: nat)
    requires level >= LOG_NODE_SIZE
    ensures LeafPos(i, level) == Shl(Sub(i, level), level - 5) + LeafPos(i, level - 5)
    ensures LeafPos(i, level - 5) < Pow2(level - 5) && LeafPos(i, level) < Pow2(level)
  {
    var l := level - 5;
    Shr32(i, level);
    LowStep(i / 32, l, Low(i / 32, l), Sub(i, level));
  }

  lemma Shr32(i: nat, level: nat)
    requires level >= 5
    ensures Shr(i, level) == Shr(i / 32, level - 5)
  {
    var h1 := i / 2;
    var h2 := h1 / 2;
    var h3 := h2 / 2;
    var h4 := h3 / 2;
    assert h4 / 2 == i / 32;
    assert Shr(i, level) == Shr(h2, level - 2);
    assert Shr(h2, level - 2) == Shr(h4, level - 4);
    assert Shr(h4, level - 4) == Shr(h4 / 2, level - 5);
  }

  lemma DescendInto(i: nat, level: nat, k: nat)
    requires level >= LOG_NODE_SIZE && LeafPos(i, level) < k
    ensures LeafPos(i, level - 5) < Share(k, level, Sub(i, level))
  {
    Descend(i, level);
  }

  lemma {:induction false} ShlNext(j: nat, level: nat)
    ensures Shl(j + 1, level) == Shl(j, level) + Pow2(level)
  {
    if level > 0 { ShlNext(j, level - 1); }
  }

  lemma {:induction false} ShlMonotone(j: nat, k: nat, level: nat)
    requires j < k
    ensures Shl(j, level) + Pow2(level) <= Shl(k, level)
    decreases k - j
  {
    ShlNext(j, level);
    if j + 1 < k { ShlMonotone(j + 1, k, level); }
  }

  /** Paths through different children are ordered like the children. */
  lemma DescendApart(i: nat, k: nat, level: nat)
    requires level >= LOG_NODE_SIZE && Sub(i, level) < Sub(k, level)
    ensures LeafPos(i, level) < LeafPos(k, level)
    ensures Shl(Sub(i, level), level - 5) + Pow2(level - 5) <= LeafPos(k, level)
  {
    Descend(i, level);
    Descend(k, level);
    ShlMonotone(Sub(i, level), Sub(k, level), level - 5);
  }

  /** Of the leaves before that of `i`, the children before its own are full, its own holds those
      before it there, the later ones none; one more leaf goes to its own child. */
  lemma ShareOnPath(i: nat, level: nat)
    requires level >= LOG_NODE_SIZE
    ensures Share(LeafPos(i, level), level, Sub(i, level)) == LeafPos(i, level - 5)
    ensures Share(LeafPos(i, level) + 1, level, Sub(i, level)) == LeafPos(i, level - 5) + 1
    ensures forall j: nat | j != Sub(i, level) ::
              Share(LeafPos(i, level) + 1, level, j) == Share(LeafPos(i, level), level, j)
  {
    Descend(i, level);
    var idx := Sub(i, level);
    forall j: nat | j != idx ensures Share(LeafPos(i, level) + 1, level, j) == Share(LeafPos(i, level), level, j) {
      if j < idx { ShlMonotone(j, idx, level - 5); } else { ShlMonotone(idx, j, level - 5); }
    }
  }

  lemma PackedAt(node: Node, level: nat, k: nat, j: nat)
    requires IsLevel(level) && level > 0 && Packed(node, level, k) && j < NODE_SIZE
    ensures PackedKid(node.kids[j], level - LOG_NODE_SIZE, Share(k, level, j))
    ensures node.kids[j] == Nil <==> Share(k, level, j) == 0
  {
    NilShare(node.kids[j], level - LOG_NODE_SIZE, Share(k, level, j));
  }

  lemma NilShare(kid: Node, level: nat, k: nat)
    requires IsLevel(level) && PackedKid(kid, level, k)
    ensures kid == Nil <==> k == 0
  {
  }

  /** Replacing one child of a packed node. */
  lemma PackedReplaced(node: Node, level: nat, k: nat, idx: nat, kid: Node, k': nat)
    requires IsLevel(level) && level > 0 && Packed(node, level, k) && idx < NODE_SIZE && k' <= Pow2(level)
    requires forall j: nat | j < NODE_SIZE && j != idx :: Share(k', level, j) == Share(k, level, j)
    requires PackedKid(kid, level - LOG_NODE_SIZE, Share(k', level, idx))
    ensures Packed(Inner(node.kids[idx := kid]), level, k')
  {
    forall j: nat | j < NODE_SIZE
      ensures PackedKid(node.kids[idx := kid][j], level - LOG_NODE_SIZE, Share(k', level, j))
    {
      if j != idx { PackedAt(node, level, k, j); }
    }
  }

  // ---- Lookup ----

  /** The leaf `arrayForV` walks to. */
  function LeafFor(node: Node, level: nat, k: nat, i: nat): (r: Node)
    requires IsLevel(level) && Packed(node, level, k) && LeafPos(i, level) < k
    ensures r.Leaf? && |r.elems| == NODE_SIZE
    decreases level
  {
    if level == 0 then node
    else
      DescendInto(i, level, k);
      PackedAt(node, level, k, Sub(i, level));
      LeafFor(node.kids[Sub(i, level)], level - LOG_NODE_SIZE, Share(k, level, Sub(i, level)), i)
  }

  function Get(node: Node, level: nat, k: nat, i: nat): Elem
    requires IsLevel(level) && Packed(node, level, k) && LeafPos(i, level) < k
  {
    LeafFor(node, level, k, i).elems[i % NODE_SIZE]
  }

  /** Indices that differ only in their last five bits share a leaf. */
  lemma {:induction false} SameLeaf(node: Node, level: nat, k: nat, i: nat, i': nat)
    requires IsLevel(level) && Packed(node, level, k) && i / NODE_SIZE == i' / NODE_SIZE && LeafPos(i, level) < k
    ensures LeafFor(node, level, k, i) == LeafFor(node, level, k, i')
    decreases level
  {
    if level > 0 {
      DescendInto(i, level, k);
      Shr32(i, level);
      Shr32(i', level);
      PackedAt(node, level, k, Sub(i, level));
      SameLeaf(node.kids[Sub(i, level)], level - 5, Share(k, level, Sub(i, level)), i, i');
    }
  }

  /** The position alone picks the leaf. */
  lemma {:induction false} LeafByPos(node: Node, level: nat, k: nat, i: nat, i': nat)
    requires IsLevel(level) && Packed(node, level, k) && LeafPos(i, level) < k
    requires LeafPos(i, level) == LeafPos(i', level)
    ensures LeafFor(node, level, k, i) == LeafFor(node, level, k, i')
    decreases level
  {
    if level > 0 {
      hide Low, Shr, Shl, Pow2;
      DescendInto(i, level, k);
      Descend(i, level);
      Descend(i', level);
      if Sub(i, level) < Sub(i', level) { DescendApart(i, i', level); }
      if Sub(i', level) < Sub(i, level) { DescendApart(i', i, level); }
      PackedAt(node, level, k, Sub(i, level));
      LeafByPos(node.kids[Sub(i, level)], level - 5, Share(k, level, Sub(i, level)), i, i');
    }
  }

  /** Every place of a child is the place of an index that goes through the child. */
  lemma IndexThrough(level: nat, j: nat, i': nat) returns (i: nat)
    requires level >= LOG_NODE_SIZE && j < NODE_SIZE
    ensures Sub(i, level) == j && i % NODE_SIZE == i' % NODE_SIZE
    ensures LeafPos(i, level - 5) == LeafPos(i', level - 5)
    ensures LeafPos(i, level) == Shl(j, level - 5) + LeafPos(i', level - 5)
  {
    var pre, n := LeafPos(i', level - 5), level - 5;
    var h := pre + Shl(j, n);
    i := h * 32 + i' % 32;
    assert i / 32 == h && i % 32 == i' % 32;
    LowStep(h, n, pre, j);
    LowAll(h, n + 5);
    Shr32(i, level);
  }

  /** A packed trie is determined by the elements it holds. */
  lemma {:induction false} Determined(a: Node, b: Node, level: nat, k: nat)
    requires IsLevel(level) && Packed(a, level, k) && Packed(b, level, k)
    requires forall i: nat | LeafPos(i, level) < k :: Get(a, level, k, i) == Get(b, level, k, i)
    ensures a == b
    decreases level
  {
    if level == 0 {
      forall e: nat | e < NODE_SIZE ensures a.elems[e] == b.elems[e] {
        assert LeafPos(e, 0) == 0;
        assert Get(a, 0, k, e) == Get(b, 0, k, e);
      }
    } else {
      forall j: nat | j < NODE_SIZE ensures a.kids[j] == b.kids[j] { SameKid(a, b, level, k, j); }
    }
  }

  lemma SameKid(a: Node, b: Node, level: nat, k: nat, j: nat)
    requires IsLevel(level) && level > 0 && Packed(a, level, k) && Packed(b, level, k) && j < NODE_SIZE
    requires forall i: nat | LeafPos(i, level) < k :: Get(a, level, k, i) == Get(b, level, k, i)
    ensures a.kids[j] == b.kids[j]
    decreases level, 0
  {
    hide Low, Shl, Shr, Pow2, LeafPos, Get;
    var share, below := Share(k, level, j), level - 5;
    PackedAt(a, level, k, j);
    PackedAt(b, level, k, j);
    if share > 0 {
      hide Packed, Share;
      forall i: nat | LeafPos(i, below) < share
        ensures Get(a.kids[j], below, share, i) == Get(b.kids[j], below, share, i)
      {
        SameInKid(a, b, level, k, j, i);
      }
      Determined(a.kids[j], b.kids[j], below, share);
    }
  }

  lemma SameInKid(a: Node, b: Node, level: nat, k: nat, j: nat, i': nat)
    requires IsLevel(level) && level > 0 && Packed(a, level, k) && Packed(b, level, k) && j < NODE_SIZE
    requires LeafPos(i', level - 5) < Share(k, level, j)
    requires forall i: nat | LeafPos(i, level) < k :: Get(a, level, k, i) == Get(b, level, k, i)
    ensures Packed(a.kids[j], level - 5, Share(k, level, j)) && Packed(b.kids[j], level - 5, Share(k, level, j))
    ensures Get(a.kids[j], level - 5, Share(k, level, j), i') == Get(b.kids[j], level - 5, Share(k, level, j), i')
  {
    PackedAt(a, level, k, j);
    PackedAt(b, level, k, j);
    hide Packed, Low, Shl, Shr, Pow2;
    var i := IndexThrough(level, j, i');
    assert Get(a, level, k, i) == Get(b, level, k, i);
    LeafByPos(a.kids[j], level - 5, Share(k, level, j), i, i');
    LeafByPos(b.kids[j], level - 5, Share(k, level, j), i, i');
  }

  // ---- Path creation ----

  function NewPath(level: nat, node: Node): Node
    requires IsLevel(level)
  {
    if level == 0 then node else Inner(NoKids()[0 := NewPath(level - LOG_NODE_SIZE, node)])
  }

  lemma ShareOfFirst(level: nat, j: nat)
    requires level >= 5
    ensures Share(1, level, j) == if j == 0 then 1 else 0
  {
    ShlZero(level - 5);
    if j > 0 { ShlMonotone(0, j, level - 5); }
  }

  lemma {:induction false} NewPathPacked(level: nat, node: Node)
    requires IsLevel(level) && Packed(node, 0, 1)
    ensures Packed(NewPath(level, node), level, 1)
  {
    if level > 0 {
      forall j: nat ensures Share(1, level, j) == if j == 0 then 1 else 0 { ShareOfFirst(level, j); }
      NewPathPacked(level - 5, node);
    }
  }

  lemma {:induction false} NewPathLeaf(level: nat, node: Node, i: nat)
    requires IsLevel(level) && Packed(node, 0, 1) && LeafPos(i, level) < 1
    requires Packed(NewPath(level, node), level, 1)
    ensures LeafFor(NewPath(level, node), level, 1, i) == node
  {
    if level > 0 {
      DescendInto(i, level, 1);
      ShareOfFirst(level, Sub(i, level));
      NewPathPacked(level - 5, node);
      NewPathLeaf(level - 5, node, i);
    }
  }

  // ---- Pushing a full leaf ----

  /** `pushTailV` for a vector of `cnt` elements whose full tail is the leaf: it becomes the leaf
      of index `cnt - 1`. */
  function PushTail(cnt: nat, level: nat, parent: Node, leaf: Node): (r: Node)
    requires IsLevel(level) && level >= LOG_NODE_SIZE && cnt > 0
    requires Packed(parent, level, LeafPos(cnt - 1, level)) && Packed(leaf, 0, 1)
    ensures Packed(r, level, LeafPos(cnt - 1, level) + 1)
    decreases level
  {
    var idx := Sub(cnt - 1, level);
    PushDown(cnt, level, parent);
    var inserted :=
      if level == LOG_NODE_SIZE then leaf
      else if parent.kids[idx] == Nil then
        NewPathPacked(level - LOG_NODE_SIZE, leaf);
        NewPath(level - LOG_NODE_SIZE, leaf)
      else PushTail(cnt, level - LOG_NODE_SIZE, parent.kids[idx], leaf);
    PushUp(cnt, level, parent, inserted);
    Inner(parent.kids[idx := inserted])
  }

  /** The child that gets the next leaf: there is none just if the leaf is its first. */
  lemma PushDown(cnt: nat, level: nat, parent: Node)
    requires IsLevel(level) && level >= LOG_NODE_SIZE && cnt > 0 && Packed(parent, level, LeafPos(cnt - 1, level))
    ensures Sub(cnt - 1, level) < NODE_SIZE && parent.Inner? && |parent.kids| == NODE_SIZE
    ensures var kid, k := parent.kids[Sub(cnt - 1, level)], LeafPos(cnt - 1, level - LOG_NODE_SIZE);
            (kid == Nil <==> k == 0) && (k > 0 ==> Packed(kid, level - LOG_NODE_SIZE, k))
    ensures level == LOG_NODE_SIZE ==> LeafPos(cnt - 1, level - LOG_NODE_SIZE) == 0
  {
    ShareOnPath(cnt - 1, level);
    Descend(cnt - 1, level);
    hide Packed, LeafPos, Sub, Share;
    PackedKids(parent, level, LeafPos(cnt - 1, level));
    PackedAt(parent, level, LeafPos(cnt - 1, level), Sub(cnt - 1, level));
    if level == LOG_NODE_SIZE { NoLeafBelow(cnt - 1); }
  }

  /** The node with the leaf, given the child with it. */
  lemma PushUp(cnt: nat, level: nat, parent: Node, inserted: Node)
    requires IsLevel(level) && level >= LOG_NODE_SIZE && cnt > 0 && Packed(parent, level, LeafPos(cnt - 1, level))
    requires Packed(inserted, level - LOG_NODE_SIZE, LeafPos(cnt - 1, level - LOG_NODE_SIZE) + 1)
    ensures Sub(cnt - 1, level) < NODE_SIZE && parent.Inner? && |parent.kids| == NODE_SIZE
    ensures Packed(Inner(parent.kids[Sub(cnt - 1, level) := inserted]), level, LeafPos(cnt - 1, level) + 1)
  {
    PushDown(cnt, level, parent);
    ShareOnPath(cnt - 1, level);
    Descend(cnt - 1, level);
    hide Packed, LeafPos, Sub, Share;
    var k := LeafPos(cnt - 1, level);
    PackedReplaced(parent, level, k, Sub(cnt - 1, level), inserted, k + 1);
  }

  /** Pushing appends the leaf and moves no other. */
  lemma {:induction false} PushTailLeaf(cnt: nat, level: nat, parent: Node, leaf: Node, i: nat)
    requires IsLevel(level) && level >= LOG_NODE_SIZE && cnt > 0
    requires Packed(parent, level, LeafPos(cnt - 1, level)) && Packed(leaf, 0, 1)
    requires LeafPos(i, level) <= LeafPos(cnt - 1, level)
    ensures LeafFor(PushTail(cnt, level, parent, leaf), level, LeafPos(cnt - 1, level) + 1, i)
            == if LeafPos(i, level) < LeafPos(cnt - 1, level) then LeafFor(parent, level, LeafPos(cnt - 1, level), i)
               else leaf
    decreases level
  {
    hide Pow2, Shl, Shr, Low;
    var k, idx, j := LeafPos(cnt - 1, level), Sub(cnt - 1, level), Sub(i, level);
    ShareOnPath(cnt - 1, level);
    DescendInto(i, level, k + 1);
    Descend(i, level);
    Descend(cnt - 1, level);
    PackedAt(parent, level, k, idx);
    if j < idx {
      DescendApart(i, cnt - 1, level);
    } else if j > idx {
      DescendApart(cnt - 1, i, level);
    } else if level > 5 {
      if parent.kids[idx] == Nil {
        NewPathPacked(level - 5, leaf);
        NewPathLeaf(level - 5, leaf, i);
      } else {
        PushTailLeaf(cnt, level - 5, parent.kids[idx], leaf, i);
      }
    }
  }

  // ---- Popping the last leaf ----

  /** `popTail` for a vector of `cnt` elements with one element in its tail: it drops the leaf of
      index `cnt - 2`. `Nil` where the C code returns a null pointer. */
  function PopTail(cnt: nat, level: nat, node: Node): (r: Node)
    requires IsLevel(level) && level >= LOG_NODE_SIZE && cnt >= 2
    requires Packed(node, level, LeafPos(cnt - 2, level) + 1)
    ensures PackedKid(r, level, LeafPos(cnt - 2, level))
    decreases level
  {
    var subindex := Sub(cnt - 2, level);
    PopDown(cnt, level, node);
    if level > LOG_NODE_SIZE then
      var newChild := PopTail(cnt, level - LOG_NODE_SIZE, node.kids[subindex]);
      PopUp(cnt, level, node, newChild);
      if newChild == Nil && subindex == 0 then Nil
      else Inner(node.kids[subindex := newChild])
    else
      PopUp(cnt, level, node, Nil);
      if subindex == 0 then Nil else Inner(node.kids[subindex := Nil])
  }

  /** The child that loses the last leaf. */
  lemma PopDown(cnt: nat, level: nat, node: Node)
    requires IsLevel(level) && level >= LOG_NODE_SIZE && cnt >= 2
    requires Packed(node, level, LeafPos(cnt - 2, level) + 1)
    ensures Sub(cnt - 2, level) < NODE_SIZE && node.Inner? && |node.kids| == NODE_SIZE
    ensures Packed(node.kids[Sub(cnt - 2, level)], level - LOG_NODE_SIZE, LeafPos(cnt - 2, level - LOG_NODE_SIZE) + 1)
    ensures level == LOG_NODE_SIZE ==> LeafPos(cnt - 2, level - LOG_NODE_SIZE) == 0
  {
    ShareOnPath(cnt - 2, level);
    Descend(cnt - 2, level);
    hide Packed, LeafPos, Sub, Share;
    PackedAt(node, level, LeafPos(cnt - 2, level) + 1, Sub(cnt - 2, level));
    assert node.Inner? && |node.kids| == NODE_SIZE by { PackedKids(node, level, LeafPos(cnt - 2, level) + 1); }
    assert level == LOG_NODE_SIZE ==> LeafPos(cnt - 2, 0) == 0 by { NoLeafBelow(cnt - 2); }
  }

  lemma PackedKids(node: Node, level: nat, k: nat)
    requires IsLevel(level) && level > 0 && Packed(node, level, k)
    ensures node.Inner? && |node.kids| == NODE_SIZE && k <= Pow2(level)
  {
  }

  lemma NoLeafBelow(i: nat)
    ensures LeafPos(i, 0) == 0
  {
    assert Pow2(0) == 1;
  }

  /** The node without the leaf, given the child without it. */
  lemma PopUp(cnt: nat, level: nat, node: Node, newChild: Node)
    requires IsLevel(level) && level >= LOG_NODE_SIZE && cnt >= 2
    requires Packed(node, level, LeafPos(cnt - 2, level) + 1)
    requires PackedKid(newChild, level - LOG_NODE_SIZE, LeafPos(cnt - 2, level - LOG_NODE_SIZE))
    ensures Sub(cnt - 2, level) < NODE_SIZE && node.Inner? && |node.kids| == NODE_SIZE
    ensures PackedKid(if newChild == Nil && Sub(cnt - 2, level) == 0 then Nil
                      else Inner(node.kids[Sub(cnt - 2, level) := newChild]), level, LeafPos(cnt - 2, level))
    ensures level == LOG_NODE_SIZE ==> newChild == Nil
  {
    var subindex, k := Sub(cnt - 2, level), LeafPos(cnt - 2, level);
    ShareOnPath(cnt - 2, level);
    Descend(cnt - 2, level);
    FirstChild(level - 5, subindex);
    PopDown(cnt, level, node);
    hide Packed, LeafPos, Sub, Share;
    PackedKids(node, level, k + 1);
    NilShare(newChild, level - LOG_NODE_SIZE, LeafPos(cnt - 2, level - LOG_NODE_SIZE));
    PackedReplaced(node, level, k + 1, subindex, newChild, k);
  }

  lemma FirstChild(level: nat, j: nat)
    ensures Shl(0, level) == 0
    ensures j > 0 ==> Shl(j, level) >= Pow2(level)
  {
    ShlZero(level);
    if j > 0 { ShlMonotone(0, j, level); }
  }

  /** Popping leaves every earlier leaf where it was. */
  lemma {:induction false} PopTailLeaf(cnt: nat, level: nat, node: Node, i: nat)
    requires IsLevel(level) && level >= LOG_NODE_SIZE && cnt >= 2
    requires Packed(node, level, LeafPos(cnt - 2, level) + 1)
    requires LeafPos(i, level) < LeafPos(cnt - 2, level)
    ensures PopTail(cnt, level, node) != Nil
    ensures LeafFor(PopTail(cnt, level, node), level, LeafPos(cnt - 2, level), i)
            == LeafFor(node, level, LeafPos(cnt - 2, level) + 1, i)
    decreases level
  {
    var k, idx, j := LeafPos(cnt - 2, level), Sub(cnt - 2, level), Sub(i, level);
    ShareOnPath(cnt - 2, level);
    DescendInto(i, level, k);
    PackedAt(node, level, k + 1, idx);
    NilShare(PopTail(cnt, level, node), level, k);
    if j == idx && level > 5 {
      PopTailLeaf(cnt, level - 5, node.kids[idx], i);
    }
  }

  // ---- Replacing an element ----

  function DoAssoc(level: nat, node: Node, k: nat, i: nat, val: Elem): (r: Node)
    requires IsLevel(level) && Packed(node, level, k) && LeafPos(i, level) < k
    ensures Packed(r, level, k)
    decreases level
  {
    if level == 0 then Leaf(node.elems[i % NODE_SIZE := val])
    else
      var subindex := Sub(i, level);
      DescendInto(i, level, k);
      PackedAt(node, level, k, subindex);
      var kid := DoAssoc(level - LOG_NODE_SIZE, node.kids[subindex], Share(k, level, subindex), i, val);
      PackedReplaced(node, level, k, subindex, kid, k);
      Inner(node.kids[subindex := kid])
  }

  /** Replacing an element changes its own leaf there and no other leaf. */
  lemma {:induction false} DoAssocLeaf(level: nat, node: Node, k: nat, i: nat, val: Elem, i': nat)
    requires IsLevel(level) && Packed(node, level, k) && LeafPos(i, level) < k && LeafPos(i', level) < k
    ensures LeafFor(DoAssoc(level, node, k, i, val), level, k, i')
            == if LeafPos(i', level) == LeafPos(i, level)
              then Leaf(LeafFor(node, level, k, i').elems[i % NODE_SIZE := val])
               else LeafFor(node, level, k, i')
    decreases level
  {
    if level > 0 {
      var j := Sub(i, level);
      DescendInto(i, level, k);
      DescendInto(i', level, k);
      Descend(i, level);
      Descend(i', level);
      PackedAt(node, level, k, j);
      if Sub(i', level) == j {
        DoAssocLeaf(level - 5, node.kids[j], Share(k, level, j), i, val, i');
      } else if Sub(i', level) < j {
        DescendApart(i', i, level);
      } else {
        DescendApart(i, i', level);
      }
    }
  }
}
