/** What an edit of one node does to lookups, for edits that need not be the ones of the persistent
    operations (src/Map.cpp:881-1247): the laws of association and removal, node by node. */
module HamtEdits {
  import opened Bits
  import opened Wrappers
  import opened HamtNodes
  import opened Hamt
  import opened HamtLaws

  ghost predicate AssocAt(node: Node, node': Node, shift: nat, key: Key, val: Val, k: Key)
    requires Valid(node, shift, Pre(key.hash, shift)) && Valid(node', shift, Pre(key.hash, shift))
  {
    Pre(k.hash, shift) == Pre(key.hash, shift) ==>
      Find(node', shift, k) == if Equiv(key, k) then Some(Updated(Find(node, shift, key), key, val))
        else Find(node, shift, k)
  }

  /** `node'` is `node` with `key` associated with `val`: every lookup says so. */
  ghost predicate AssocLaw(node: Node, node': Node, added: bool, shift: nat, key: Key, val: Val) {
    && Valid(node, shift, Pre(key.hash, shift)) && Valid(node', shift, Pre(key.hash, shift))
    && (added <==> Find(node, shift, key) == None)
    && (forall k: Key :: AssocAt(node, node', shift, key, val, k))
  }

  ghost predicate SlotAt(slot: Slot, slot': Slot, shift: nat, key: Key, val: Val, k: Key)
    requires ValidSlot(slot, shift, Pre(key.hash, shift)) && ValidSlot(slot', shift, Pre(key.hash, shift))
  {
    Pre(k.hash, shift) == Pre(key.hash, shift) ==>
      FindSlot(slot', shift, k) ==
      if Equiv(key, k) then Some(Updated(FindSlot(slot, shift, key), key, val)) else FindSlot(slot, shift, k)
  }

  ghost predicate SlotLaw(slot: Slot, slot': Slot, added: bool, shift: nat, key: Key, val: Val) {
    && ValidSlot(slot, shift, Pre(key.hash, shift)) && ValidSlot(slot', shift, Pre(key.hash, shift))
    && (added <==> FindSlot(slot, shift, key) == None)
    && (forall k: Key :: SlotAt(slot, slot', shift, key, val, k))
  }

  // ---- Slots ----

  lemma LeafSet(k0: Key, v0: Val, shift: nat, key: Key, val: Val)
    requires Equiv(key, k0)
    ensures SlotLaw(Leaf(k0, v0), Leaf(k0, val), false, shift, key, val)
  {
  }

  lemma ChildSet(child: Node, child': Node, added: bool, shift: nat, key: Key, val: Val)
    requires AssocLaw(child, child', added, shift, key, val)
    ensures SlotLaw(Child(child), Child(child'), added, shift, key, val)
  {
    forall k: Key ensures SlotAt(Child(child), Child(child'), shift, key, val, k) {
      assert AssocAt(child, child', shift, key, val, k);
    }
  }

  ghost predicate PairAt(node: Node, shift: nat, key1: Key, val1: Val, key2: Key, val2: Val, k: Key)
    requires Valid(node, shift, Pre(key2.hash, shift))
  {
    Pre(k.hash, shift) == Pre(key2.hash, shift) ==>
      Find(node, shift, k) ==
      if Equiv(key2, k) then Some(Entry(key2, val2)) else if Equiv(key1, k) then Some(Entry(key1, val1)) else None
  }

  /** A node that holds just two keys. */
  ghost predicate PairLaw(node: Node, shift: nat, key1: Key, val1: Val, key2: Key, val2: Val) {
    && Valid(node, shift, Pre(key2.hash, shift)) && Pre(key1.hash, shift) == Pre(key2.hash, shift)
    && (forall k: Key :: PairAt(node, shift, key1, val1, key2, val2, k))
  }

  lemma LeafSplit(k0: Key, v0: Val, node: Node, shift: nat, key: Key, val: Val)
    requires !Equiv(key, k0) && PairLaw(node, shift, k0, v0, key, val)
    ensures SlotLaw(Leaf(k0, v0), Child(node), true, shift, key, val)
  {
    forall k: Key ensures SlotAt(Leaf(k0, v0), Child(node), shift, key, val, k) {
      assert PairAt(node, shift, k0, v0, key, val, k);
    }
  }

  lemma PairCollision(shift: nat, key1: Key, val1: Val, key2: Key, val2: Val)
    requires shift % NODE_LOG_SIZE == 0 && shift <= 35 && key1.hash == key2.hash && !Equiv(key1, key2)
    ensures PairLaw(Collision(key1.hash, [Entry(key1, val1), Entry(key2, val2)]), shift, key1, val1, key2, val2)
  {
    var node := CreateNode(shift, key1, val1, key2, val2);
    forall k: Key ensures PairAt(node, shift, key1, val1, key2, val2, k) {
      if Pre(k.hash, shift) == Pre(key2.hash, shift) { FindCreateNode(shift, key1, val1, key2, val2, k); }
    }
  }

  /** Unequal hashes still differ somewhere, so both keys fit under bitmap nodes. */
  lemma PairShift(shift: nat, key1: Key, key2: Key)
    requires shift % NODE_LOG_SIZE == 0 && shift <= 35
    requires key1.hash != key2.hash && Pre(key1.hash, shift) == Pre(key2.hash, shift)
    ensures shift <= 30
  {
    Pre35(key1.hash);
    Pre35(key2.hash);
  }

  lemma PairAssoc(first: Node, node: Node, a: bool, b: bool, shift: nat, key1: Key, val1: Val, key2: Key, val2: Val)
    requires shift % NODE_LOG_SIZE == 0 && shift <= 30 && Pre(key1.hash, shift) == Pre(key2.hash, shift)
    requires !Equiv(key1, key2)
    requires AssocLaw(EmptyBMINode, first, a, shift, key1, val1) && AssocLaw(first, node, b, shift, key2, val2)
    ensures PairLaw(node, shift, key1, val1, key2, val2)
  {
    FindInEmpty(shift, key1);
    FindInEmpty(shift, key2);
    assert AssocAt(EmptyBMINode, first, shift, key1, val1, key2);
    forall k: Key ensures PairAt(node, shift, key1, val1, key2, val2, k) {
      if Pre(k.hash, shift) == Pre(key2.hash, shift) {
        FindInEmpty(shift, k);
        assert AssocAt(EmptyBMINode, first, shift, key1, val1, k);
        assert AssocAt(first, node, shift, key2, val2, k);
      }
    }
  }

  // ---- Bitmap nodes ----

  lemma SlotEdited(bitmap: nat, slots: seq<Slot>, slot: Slot, added: bool, shift: nat, key: Key, val: Val)
    requires Valid(Bitmap(bitmap, slots), shift, Pre(key.hash, shift)) && Bit(bitmap, Mask(key.hash, shift))
    requires Rank(bitmap, Mask(key.hash, shift)) < |slots|
    requires SlotLaw(slots[Rank(bitmap, Mask(key.hash, shift))], slot, added, shift + NODE_LOG_SIZE, key, val)
    ensures AssocLaw(Bitmap(bitmap, slots), Bitmap(bitmap, slots[Rank(bitmap, Mask(key.hash, shift)) := slot]), added,
              shift,
                     key, val)
  {
    var m := Mask(key.hash, shift);
    var r := Rank(bitmap, m);
    var node, node' := Bitmap(bitmap, slots), Bitmap(bitmap, slots[r := slot]);
    PreStep(key.hash, shift, Pre(key.hash, shift), m);
    SetSlotValid(bitmap, slots, shift, Pre(key.hash, shift), m, slot);
    FindInSlot(bitmap, slots, shift, key);
    forall k: Key ensures AssocAt(node, node', shift, key, val, k) {
      if Pre(k.hash, shift) == Pre(key.hash, shift) {
        SlotEditedAt(bitmap, slots, slot, added, shift, key, val, k);
      }
    }
  }

  lemma SlotEditedAt(bitmap: nat, slots: seq<Slot>, slot: Slot, added: bool, shift: nat, key: Key, val: Val, k: Key)
    requires Valid(Bitmap(bitmap, slots), shift, Pre(key.hash, shift)) && Bit(bitmap, Mask(key.hash, shift))
    requires Rank(bitmap, Mask(key.hash, shift)) < |slots| && Pre(k.hash, shift) == Pre(key.hash, shift)
    requires SlotLaw(slots[Rank(bitmap, Mask(key.hash, shift))], slot, added, shift + NODE_LOG_SIZE, key, val)
    requires Valid(Bitmap(bitmap, slots[Rank(bitmap, Mask(key.hash, shift)) := slot]), shift, Pre(key.hash, shift))
    ensures AssocAt(Bitmap(bitmap, slots), Bitmap(bitmap, slots[Rank(bitmap, Mask(key.hash, shift)) := slot]), shift,
              key,
                    val, k)
  {
    var m := Mask(key.hash, shift);
    var r := Rank(bitmap, m);
    FindInSlot(bitmap, slots, shift, key);
    FindSetSlot(bitmap, slots, shift, m, slot, k);
    assert SlotAt(slots[r], slot, shift + NODE_LOG_SIZE, key, val, k);
    if Mask(k.hash, shift) == m {
      PreStep(k.hash, shift, Pre(k.hash, shift), m);
      PreStep(key.hash, shift, Pre(k.hash, shift), m);
      FindInSlot(bitmap, slots, shift, k);
    } else {
      assert !Equiv(key, k);
    }
  }

  lemma SlotInserted(bitmap: nat, slots: seq<Slot>, shift: nat, key: Key, val: Val)
    requires Valid(Bitmap(bitmap, slots), shift, Pre(key.hash, shift)) && !Bit(bitmap, Mask(key.hash, shift))
    ensures Rank(bitmap, Mask(key.hash, shift)) <= |slots|
    ensures PopCount(Or(bitmap, BitPos(key.hash, shift))) == PopCount(bitmap) + 1 == |slots| + 1
    ensures AssocLaw(Bitmap(bitmap, slots),
                     Bitmap(Or(bitmap, BitPos(key.hash, shift)),
                       Insert(slots, Rank(bitmap, Mask(key.hash, shift)), Leaf(key, val))),
                     true, shift, key, val)
  {
    var m := Mask(key.hash, shift);
    PreStep(key.hash, shift, Pre(key.hash, shift), m);
    MaskAt30(key.hash);
    InsertSlotValid(bitmap, slots, shift, Pre(key.hash, shift), m, Leaf(key, val));
    FindInSlot(bitmap, slots, shift, key);
    var node := Bitmap(bitmap, slots);
    var node' := Bitmap(Or(bitmap, Pow2(m)), Insert(slots, Rank(bitmap, m), Leaf(key, val)));
    forall k: Key ensures AssocAt(node, node', shift, key, val, k) {
      if Pre(k.hash, shift) == Pre(key.hash, shift) {
        FindInsertSlot(bitmap, slots, shift, m, Leaf(key, val), k);
        FindInSlot(bitmap, slots, shift, k);
      }
    }
  }

  lemma Grown(node: Node, shift: nat, key: Key, val: Val)
    requires node.Bitmap? && Valid(node, shift, Pre(key.hash, shift))
    requires PopCount(node.bitmap) >= NODE_SIZE / 2 && !Bit(node.bitmap, Mask(key.hash, shift))
    ensures AssocLaw(node, Grow(node, shift, key, val).node, true, shift, key, val)
  {
    FindInSlot(node.bitmap, node.slots, shift, key);
    var node' := Grow(node, shift, key, val).node;
    forall k: Key ensures AssocAt(node, node', shift, key, val, k) {
      if Pre(k.hash, shift) == Pre(key.hash, shift) { FindGrow(node, shift, key, val, k); }
    }
  }

  // ---- Array nodes ----

  lemma CellAdded(count: nat, nodes: seq<Option<Node>>, shift: nat, key: Key, val: Val)
    requires Valid(Array(count, nodes), shift, Pre(key.hash, shift)) && nodes[Mask(key.hash, shift)].None?
    ensures AssocLaw(Array(count, nodes),
                     Array(count + 1, nodes[Mask(key.hash, shift) := Some(Singleton(shift + NODE_LOG_SIZE, key, val))]),
                     true, shift, key, val)
  {
    var node := Array(count, nodes);
    var node' := AssocArray(node, shift, key, val).node;
    FindInArray(count, nodes, shift, key);
    forall k: Key ensures AssocAt(node, node', shift, key, val, k) {
      if Pre(k.hash, shift) == Pre(key.hash, shift) { FindAssocArray(node, shift, key, val, k); }
    }
  }

  lemma CellSetValid(count: nat, nodes: seq<Option<Node>>, shift: nat, pre: nat, m: nat, child: Node)
    requires Valid(Array(count, nodes), shift, pre) && m < NODE_SIZE && nodes[m].Some?
    requires Valid(child, shift + NODE_LOG_SIZE, ChildPre(pre, m, shift))
    ensures Valid(Array(count, nodes[m := Some(child)]), shift, pre)
  {
    CountSet(nodes, m, Some(child));
  }

  lemma CellEdited(count: nat, nodes: seq<Option<Node>>, child: Node, added: bool, shift: nat, key: Key, val: Val)
    requires Valid(Array(count, nodes), shift, Pre(key.hash, shift)) && nodes[Mask(key.hash, shift)].Some?
    requires AssocLaw(nodes[Mask(key.hash, shift)].value, child, added, shift + NODE_LOG_SIZE, key, val)
    ensures AssocLaw(Array(count, nodes), Array(count, nodes[Mask(key.hash, shift) := Some(child)]), added, shift, key,
              val)
  {
    var m := Mask(key.hash, shift);
    var node, node' := Array(count, nodes), Array(count, nodes[m := Some(child)]);
    PreStep(key.hash, shift, Pre(key.hash, shift), m);
    CellSetValid(count, nodes, shift, Pre(key.hash, shift), m, child);
    FindInArray(count, nodes, shift, key);
    forall k: Key ensures AssocAt(node, node', shift, key, val, k) {
      if Pre(k.hash, shift) == Pre(key.hash, shift) {
        FindInArray(count, nodes, shift, k);
        FindInArray(count, node'.nodes, shift, k);
        PreStep(k.hash, shift, Pre(k.hash, shift), m);
        assert AssocAt(nodes[m].value, child, shift + NODE_LOG_SIZE, key, val, k);
      }
    }
  }

  // ---- Collision nodes ----

  lemma EntrySet(hash: Word, entries: seq<Entry>, shift: nat, key: Key, val: Val)
    requires Valid(Collision(hash, entries), shift, Pre(key.hash, shift)) && key.hash == hash
    ensures var i := FindIndex(entries, key);
            AssocLaw(Collision(hash, entries),
                     Collision(hash, if i == -1 then entries + [Entry(key, val)]
                       else entries[i := Entry(entries[i].key, val)]),
                     i == -1, shift, key, val)
  {
    var node := Collision(hash, entries);
    var i := FindIndex(entries, key);
    var node' := Collision(hash, if i == -1 then entries + [Entry(key, val)]
      else entries[i := Entry(entries[i].key, val)]);
    assert i != -1 && entries[i].val == val ==> entries[i := Entry(entries[i].key, val)] == entries;
    assert AssocCollision(node, shift, key, val).node == node';
    forall k: Key ensures AssocAt(node, node', shift, key, val, k) {
      if Pre(k.hash, shift) == Pre(key.hash, shift) { FindAssocCollision(node, shift, key, val, k); }
    }
  }

  lemma Wrapped(node: Node, node': Node, added: bool, shift: nat, key: Key, val: Val)
    requires node.Collision? && Valid(node, shift, Pre(key.hash, shift)) && node.hash != key.hash
    requires AssocLaw(Wrap(node, shift), node', added, shift, key, val)
    ensures AssocLaw(node, node', added, shift, key, val)
  {
    WrapValid(node, shift, key);
    FindInWrap(node, shift, key);
    forall k: Key ensures AssocAt(node, node', shift, key, val, k) {
      if Pre(k.hash, shift) == Pre(key.hash, shift) {
        assert AssocAt(Wrap(node, shift), node', shift, key, val, k);
        FindInWrap(node, shift, k);
      }
    }
  }

  // ---- Removal ----

  ghost predicate WithoutAt(node: Node, node': Option<Node>, shift: nat, key: Key, k: Key)
    requires Valid(node, shift, Pre(key.hash, shift)) &&
               (node'.Some? ==> Valid(node'.value, shift, Pre(key.hash, shift)))
  {
    Pre(k.hash, shift) == Pre(key.hash, shift) ==>
      FindOpt(node', shift, k) == if Equiv(key, k) then None else Find(node, shift, k)
  }

  /** `node'` is `node` without `key`; `removed` says whether the key was there. */
  ghost predicate WithoutLaw(node: Node, node': Option<Node>, removed: bool, shift: nat, key: Key) {
    && Valid(node, shift, Pre(key.hash, shift)) && (node'.Some? ==> Valid(node'.value, shift, Pre(key.hash, shift)))
    && (removed <==> Find(node, shift, key).Some?)
    && (forall k: Key :: WithoutAt(node, node', shift, key, k))
  }

  /** Equivalent keys find the same. */
  lemma {:induction false} FindEquiv(node: Node, shift: nat, key: Key, k: Key)
    requires Valid(node, shift, Pre(key.hash, shift)) && Equiv(key, k)
    ensures Find(node, shift, k) == Find(node, shift, key)
    decreases node
  {
    match node
    case Bitmap(bitmap, slots) =>
      SlotFor(bitmap, slots, shift, key);
      FindInSlot(bitmap, slots, shift, key);
      FindInSlot(bitmap, slots, shift, k);
      if Bit(bitmap, Mask(key.hash, shift)) {
        var slot := slots[Rank(bitmap, Mask(key.hash, shift))];
        if slot.Child? { FindEquiv(slot.node, shift + NODE_LOG_SIZE, key, k); }
      }
    case Array(count, nodes) =>
      FindInArray(count, nodes, shift, key);
      FindInArray(count, nodes, shift, k);
      if nodes[Mask(key.hash, shift)].Some? {
        FindEquiv(nodes[Mask(key.hash, shift)].value, shift + NODE_LOG_SIZE, key, k);
      }
    case Collision(_, entries) =>
      FindIndexUnique(entries, key);
      FindIndexUnique(entries, k);
      if FindIndex(entries, key) != -1 { assert Equiv(k, entries[FindIndex(entries, key)].key); }
      if FindIndex(entries, k) != -1 { assert Equiv(key, entries[FindIndex(entries, k)].key); }
  }

  lemma NotThere(node: Node, shift: nat, key: Key)
    requires Valid(node, shift, Pre(key.hash, shift)) && Find(node, shift, key) == None
    ensures WithoutLaw(node, Some(node), false, shift, key)
  {
    forall k: Key ensures WithoutAt(node, Some(node), shift, key, k) {
      if Equiv(key, k) { FindEquiv(node, shift, key, k); }
    }
  }

  /** The subtrie under a bit loses the key but not its last one. */
  lemma SlotShrunk(bitmap: nat, slots: seq<Slot>, child: Node, removed: bool, shift: nat, key: Key)
    requires Valid(Bitmap(bitmap, slots), shift, Pre(key.hash, shift)) && Bit(bitmap, Mask(key.hash, shift))
    requires Rank(bitmap, Mask(key.hash, shift)) < |slots| && slots[Rank(bitmap, Mask(key.hash, shift))].Child?
    requires WithoutLaw(slots[Rank(bitmap, Mask(key.hash, shift))].node, Some(child), removed, shift + NODE_LOG_SIZE,
               key)
    ensures WithoutLaw(Bitmap(bitmap, slots),
                       Some(Bitmap(bitmap, slots[Rank(bitmap, Mask(key.hash, shift)) := Child(child)])), removed,
                         shift, key)
  {
    var m := Mask(key.hash, shift);
    var r := Rank(bitmap, m);
    var node, node' := Bitmap(bitmap, slots), Bitmap(bitmap, slots[r := Child(child)]);
    PreStep(key.hash, shift, Pre(key.hash, shift), m);
    SetSlotValid(bitmap, slots, shift, Pre(key.hash, shift), m, Child(child));
    FindInSlot(bitmap, slots, shift, key);
    forall k: Key ensures WithoutAt(node, Some(node'), shift, key, k) {
      if Pre(k.hash, shift) == Pre(key.hash, shift) {
        FindSetSlot(bitmap, slots, shift, m, Child(child), k);
        FindInSlot(bitmap, slots, shift, k);
        assert WithoutAt(slots[r].node, Some(child), shift + NODE_LOG_SIZE, key, k);
        if Mask(k.hash, shift) == m {
          PreStep(k.hash, shift, Pre(k.hash, shift), m);
        }
      }
    }
  }

  /** The slot under the bit of `key` holds no other key. */
  ghost predicate OnlyKey(slot: Slot, shift: nat, key: Key)
    requires ValidSlot(slot, shift, Pre(key.hash, shift))
  {
    FindSlot(slot, shift, key).Some? &&
    forall k: Key | Pre(k.hash, shift) == Pre(key.hash, shift) && !Equiv(key, k) :: FindSlot(slot, shift, k) == None
  }

  lemma OnlyLeaf(k0: Key, v0: Val, shift: nat, key: Key)
    requires Equiv(key, k0)
    ensures OnlyKey(Leaf(k0, v0), shift, key)
  {
  }

  lemma OnlyChild(child: Node, removed: bool, shift: nat, key: Key)
    requires WithoutLaw(child, None, removed, shift, key) && removed
    ensures OnlyKey(Child(child), shift, key)
  {
    forall k: Key | Pre(k.hash, shift) == Pre(key.hash, shift) && !Equiv(key, k)
      ensures FindSlot(Child(child), shift, k) == None
    {
      assert WithoutAt(child, None, shift, key, k);
    }
  }

  /** The slot of a key that is alone in it is dropped; with the last slot goes the node. */
  lemma SlotDropped(bitmap: nat, slots: seq<Slot>, shift: nat, key: Key)
    requires Valid(Bitmap(bitmap, slots), shift, Pre(key.hash, shift)) && Bit(bitmap, Mask(key.hash, shift))
    requires Rank(bitmap, Mask(key.hash, shift)) < |slots|
    requires ValidSlot(slots[Rank(bitmap, Mask(key.hash, shift))], shift + NODE_LOG_SIZE,
               Pre(key.hash, shift + NODE_LOG_SIZE))
    requires OnlyKey(slots[Rank(bitmap, Mask(key.hash, shift))], shift + NODE_LOG_SIZE, key)
    ensures WithoutLaw(Bitmap(bitmap, slots),
                       Some(Bitmap(Xor(bitmap, BitPos(key.hash, shift)),
                         Remove(slots, Rank(bitmap, Mask(key.hash, shift))))),
                       true, shift, key)
    ensures bitmap == BitPos(key.hash, shift) ==> WithoutLaw(Bitmap(bitmap, slots), None, true, shift, key)
  {
    var m := Mask(key.hash, shift);
    var r := Rank(bitmap, m);
    var node, node' := Bitmap(bitmap, slots), Bitmap(Xor(bitmap, Pow2(m)), Remove(slots, r));
    RemoveSlotValid(bitmap, slots, shift, Pre(key.hash, shift), m);
    FindInSlot(bitmap, slots, shift, key);
    forall k: Key ensures WithoutAt(node, Some(node'), shift, key, k)
                  ensures bitmap == Pow2(m) ==> WithoutAt(node, None, shift, key, k)
    {
      if Pre(k.hash, shift) == Pre(key.hash, shift) {
        FindRemoveSlot(bitmap, slots, shift, m, k);
        FindInSlot(bitmap, slots, shift, k);
        if bitmap == Pow2(m) { OnlyBit(m, Mask(k.hash, shift)); }
        if Mask(k.hash, shift) == m {
          PreStep(k.hash, shift, Pre(k.hash, shift), m);
          PreStep(key.hash, shift, Pre(key.hash, shift), m);
        }
      }
    }
  }

  /** A cell of an array node loses the key. */
  lemma CellShrunk(count: nat, nodes: seq<Option<Node>>, child: Option<Node>, removed: bool, shift: nat, key: Key,
                   node': Node)
    requires Valid(Array(count, nodes), shift, Pre(key.hash, shift)) && nodes[Mask(key.hash, shift)].Some?
    requires WithoutLaw(nodes[Mask(key.hash, shift)].value, child, removed, shift + NODE_LOG_SIZE, key)
    requires if child.Some? then node' == Array(count, nodes[Mask(key.hash, shift) := child])
             else if count <= NODE_SIZE / 4 then
               var p := Pack(nodes, Mask(key.hash, shift), NODE_SIZE); node' == Bitmap(p.bitmap, p.slots)
             else node' == Array(count - 1, nodes[Mask(key.hash, shift) := None])
    ensures WithoutLaw(Array(count, nodes), Some(node'), removed, shift, key)
  {
    hide Find, PopCount, Rank, Low, Pow2, Or;
    var m := Mask(key.hash, shift);
    var node := Array(count, nodes);
    PreStep(key.hash, shift, Pre(key.hash, shift), m);
    FindInArray(count, nodes, shift, key);
    CountSet(nodes, m, child);
    if child.None? && count <= NODE_SIZE / 4 {
      PackValid(count, nodes, shift, Pre(key.hash, shift), m);
      PackBits(nodes, m, NODE_SIZE);
    }
    forall k: Key ensures WithoutAt(node, Some(node'), shift, key, k) {
      if Pre(k.hash, shift) == Pre(key.hash, shift) {
        FindInArray(count, nodes, shift, k);
        PreStep(k.hash, shift, Pre(k.hash, shift), Mask(k.hash, shift));
        if node'.Array? {
          FindInArray(node'.count, node'.nodes, shift, k);
        } else {
          FindInSlot(node'.bitmap, node'.slots, shift, k);
        }
        assert WithoutAt(nodes[m].value, child, shift + NODE_LOG_SIZE, key, k);
      }
    }
  }

  /** `entries` with the one at `i` replaced by the last one, and the last one dropped. */
  function SwapOut(entries: seq<Entry>, i: nat): seq<Entry>
    requires i < |entries|
  {
    entries[i := entries[|entries| - 1]][..|entries| - 1]
  }

  lemma EntryDropped(hash: Word, entries: seq<Entry>, shift: nat, key: Key)
    requires Valid(Collision(hash, entries), shift, Pre(key.hash, shift)) && FindIndex(entries, key) != -1
    ensures |entries| == 1 ==> WithoutLaw(Collision(hash, entries), None, true, shift, key)
    ensures |entries| > 1 ==>
              WithoutLaw(Collision(hash, entries), Some(Collision(hash, SwapOut(entries, FindIndex(entries, key)))),
                true,
                         shift, key)
  {
    var i, node := FindIndex(entries, key), Collision(hash, entries);
    if |entries| == 1 {
      forall k: Key ensures WithoutAt(node, None, shift, key, k) {
        FindIndexUnique(entries, k);
        if FindIndex(entries, k) != -1 { assert FindIndex(entries, k) == 0; }
      }
    } else {
      var n, rest := |entries| - 1, SwapOut(entries, i);
      var node' := Collision(hash, rest);
      forall x | 0 <= x < n ensures rest[x] == entries[if x == i then n else x] {}
      forall k: Key ensures WithoutAt(node, Some(node'), shift, key, k) {
        SwapOutFind(entries, i, rest, key, k);
      }
    }
  }

  lemma SwapOutFind(entries: seq<Entry>, i: nat, rest: seq<Entry>, key: Key, k: Key)
    requires forall x, y | 0 <= x < y < |entries| :: !Equiv(entries[x].key, entries[y].key)
    requires i < |entries| && FindIndex(entries, key) == i && |rest| == |entries| - 1
    requires forall x | 0 <= x < |rest| :: rest[x] == entries[if x == i then |entries| - 1 else x]
    ensures (if FindIndex(rest, k) == -1 then None else Some(rest[FindIndex(rest, k)])) ==
            if Equiv(key, k) || FindIndex(entries, k) == -1 then None else Some(entries[FindIndex(entries, k)])
  {
    FindIndexUnique(entries, k);
    FindIndexUnique(entries, key);
    forall x, y | 0 <= x < y < |rest| ensures !Equiv(rest[x].key, rest[y].key) {
      var a, b := if x == i then |rest| else x, if y == i then |rest| else y;
      assert !Equiv(entries[a].key, entries[b].key) && !Equiv(entries[b].key, entries[a].key);
    }
    FindIndexUnique(rest, k);
    var j := FindIndex(entries, k);
    if j != -1 && j != i {
      assert rest[if j == |rest| then i else j] == entries[j];
    }
    var x := FindIndex(rest, k);
    if x != -1 { assert Equiv(k, entries[if x == i then |rest| else x].key); }
  }
}
