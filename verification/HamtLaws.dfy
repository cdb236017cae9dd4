/** What association and removal do to lookups: the laws of a finite map, for every key. */
module HamtLaws {
  import opened Bits
  import opened Wrappers
  import opened HamtNodes
  import opened Hamt

  function FindSlot(slot: Slot, shift: nat, key: Key): Option<Entry>
    requires ValidSlot(slot, shift, Pre(key.hash, shift))
  {
    match slot
    case Child(child) => Find(child, shift, key)
    case Leaf(lookupKey, lookupVal) => if Equiv(key, lookupKey) then Some(Entry(lookupKey, lookupVal)) else None
  }

  /** Lookup in a bitmap node, without the bit arithmetic. */
  lemma FindInSlot(bitmap: nat, slots: seq<Slot>, shift: nat, key: Key)
    requires Valid(Bitmap(bitmap, slots), shift, Pre(key.hash, shift))
    ensures var m := Mask(key.hash, shift);
            if Bit(bitmap, m) then
              && Rank(bitmap, m) < |slots|
              && ValidSlot(slots[Rank(bitmap, m)], shift + NODE_LOG_SIZE, Pre(key.hash, shift + NODE_LOG_SIZE))
              && Find(Bitmap(bitmap, slots), shift, key) == FindSlot(slots[Rank(bitmap, m)], shift + NODE_LOG_SIZE, key)
            else Find(Bitmap(bitmap, slots), shift, key) == None
  {
    SlotFor(bitmap, slots, shift, key);
  }

  /** The entry `Assoc` leaves behind keeps the key that was stored first. */
  function Updated(prev: Option<Entry>, key: Key, val: Val): Entry {
    Entry(if prev.Some? then prev.value.key else key, val)
  }

  lemma FindSetSlot(bitmap: nat, slots: seq<Slot>, shift: nat, m: nat, slot: Slot, k: Key)
    requires Valid(Bitmap(bitmap, slots), shift, Pre(k.hash, shift))
    requires m < NODE_SIZE && Bit(bitmap, m) && Rank(bitmap, m) < |slots|
    requires Valid(Bitmap(bitmap, slots[Rank(bitmap, m) := slot]), shift, Pre(k.hash, shift))
    ensures Mask(k.hash, shift) == m ==>
              && ValidSlot(slot, shift + NODE_LOG_SIZE, Pre(k.hash, shift + NODE_LOG_SIZE))
              && Find(Bitmap(bitmap, slots[Rank(bitmap, m) := slot]), shift, k) ==
                FindSlot(slot, shift + NODE_LOG_SIZE, k)
    ensures Mask(k.hash, shift) != m ==>
              Find(Bitmap(bitmap, slots[Rank(bitmap, m) := slot]), shift, k) == Find(Bitmap(bitmap, slots), shift, k)
  {
    var i := Mask(k.hash, shift);
    FindInSlot(bitmap, slots, shift, k);
    FindInSlot(bitmap, slots[Rank(bitmap, m) := slot], shift, k);
    if i != m && Bit(bitmap, i) { SlotsDistinct(bitmap, i, m); }
  }

  lemma FindInsertSlot(bitmap: nat, slots: seq<Slot>, shift: nat, m: nat, slot: Slot, k: Key)
    requires Valid(Bitmap(bitmap, slots), shift, Pre(k.hash, shift))
    requires m < NODE_SIZE && !Bit(bitmap, m) && Rank(bitmap, m) <= |slots|
    requires Valid(Bitmap(Or(bitmap, Pow2(m)), Insert(slots, Rank(bitmap, m), slot)), shift, Pre(k.hash, shift))
    ensures Mask(k.hash, shift) == m ==>
              && ValidSlot(slot, shift + NODE_LOG_SIZE, Pre(k.hash, shift + NODE_LOG_SIZE))
              && Find(Bitmap(Or(bitmap, Pow2(m)), Insert(slots, Rank(bitmap, m), slot)), shift, k)
                 == FindSlot(slot, shift + NODE_LOG_SIZE, k)
    ensures Mask(k.hash, shift) != m ==>
              Find(Bitmap(Or(bitmap, Pow2(m)), Insert(slots, Rank(bitmap, m), slot)), shift, k)
              == Find(Bitmap(bitmap, slots), shift, k)
  {
    var i := Mask(k.hash, shift);
    FindInSlot(bitmap, slots, shift, k);
    FindInSlot(Or(bitmap, Pow2(m)), Insert(slots, Rank(bitmap, m), slot), shift, k);
    OrSetsBit(bitmap, m, i);
    RankAfterOr(bitmap, m, i);
    if i < m { RankMonotone(bitmap, i, m); } else if m < i { RankMonotone(bitmap, m, i); }
  }

  lemma FindRemoveSlot(bitmap: nat, slots: seq<Slot>, shift: nat, m: nat, k: Key)
    requires Valid(Bitmap(bitmap, slots), shift, Pre(k.hash, shift))
    requires m < NODE_SIZE && Bit(bitmap, m) && Rank(bitmap, m) < |slots|
    requires Valid(Bitmap(Xor(bitmap, Pow2(m)), Remove(slots, Rank(bitmap, m))), shift, Pre(k.hash, shift))
    ensures Find(Bitmap(Xor(bitmap, Pow2(m)), Remove(slots, Rank(bitmap, m))), shift, k)
            == if Mask(k.hash, shift) == m then None else Find(Bitmap(bitmap, slots), shift, k)
  {
    hide Find, PopCount, Rank, Bit, Low, Xor;
    var i := Mask(k.hash, shift);
    var slots' := Remove(slots, Rank(bitmap, m));
    XorClearsBit(bitmap, m, i);
    FindInSlot(Xor(bitmap, Pow2(m)), slots', shift, k);
    if i != m {
      FindInSlot(bitmap, slots, shift, k);
      if Bit(bitmap, i) {
        RankAfterRemove(bitmap, m, i);
        RemovedAt(slots, Rank(bitmap, m), Rank(bitmap, i));
      }
    }
  }

  lemma RemovedAt<T>(s: seq<T>, i: nat, j: nat)
    requires i < |s| && j < |s| && i != j
    ensures Remove(s, i)[if j < i then j else j - 1] == s[j]
  {
  }

  lemma FindInEmpty(shift: nat, k: Key)
    requires shift % NODE_LOG_SIZE == 0 && shift <= 30
    ensures Valid(EmptyBMINode, shift, Pre(k.hash, shift)) && Find(EmptyBMINode, shift, k) == None
  {
    EmptyValid(shift, Pre(k.hash, shift));
    FindInSlot(0, [], shift, k);
    BitOfZero(Mask(k.hash, shift));
  }

  lemma FindInSingleton(shift: nat, key: Key, val: Val, k: Key)
    requires shift % NODE_LOG_SIZE == 0 && shift <= 30 && Pre(k.hash, shift) == Pre(key.hash, shift)
    ensures Valid(Singleton(shift, key, val), shift, Pre(k.hash, shift))
    ensures Find(Singleton(shift, key, val), shift, k) == if Equiv(key, k) then Some(Entry(key, val)) else None
  {
    FindInEmpty(shift, k);
    SingletonValid(shift, key, val);
    var m := Mask(key.hash, shift);
    BitOfZero(m);
    RankOfZero(m);
    assert Insert([], 0, Leaf(key, val)) == [Leaf(key, val)];
    FindInsertSlot(0, [], shift, m, Leaf(key, val), k);
  }

  lemma FindInSlotNode(slot: Slot, shift: nat, k: Key)
    requires shift % NODE_LOG_SIZE == 0 && shift <= 30 && ValidSlot(slot, shift, Pre(k.hash, shift))
    ensures Valid(SlotNode(slot, shift), shift, Pre(k.hash, shift))
    ensures Find(SlotNode(slot, shift), shift, k) == FindSlot(slot, shift, k)
  {
    if slot.Leaf? { FindInSingleton(shift, slot.key, slot.val, k); }
  }

  lemma FindInArray(count: nat, nodes: seq<Option<Node>>, shift: nat, k: Key)
    requires Valid(Array(count, nodes), shift, Pre(k.hash, shift))
    ensures var c := nodes[Mask(k.hash, shift)];
            if c.Some? then
              && Valid(c.value, shift + NODE_LOG_SIZE, Pre(k.hash, shift + NODE_LOG_SIZE))
              && Find(Array(count, nodes), shift, k) == Find(c.value, shift + NODE_LOG_SIZE, k)
            else Find(Array(count, nodes), shift, k) == None
  {
    PreStep(k.hash, shift, Pre(k.hash, shift), Mask(k.hash, shift));
  }

  lemma FindGrow(node: Node, shift: nat, key: Key, val: Val, k: Key)
    requires node.Bitmap? && Valid(node, shift, Pre(key.hash, shift)) && Pre(k.hash, shift) == Pre(key.hash, shift)
    requires PopCount(node.bitmap) >= NODE_SIZE / 2 && !Bit(node.bitmap, Mask(key.hash, shift))
    ensures Find(Grow(node, shift, key, val).node, shift, k)
            == if Equiv(key, k) then Some(Entry(key, val)) else Find(node, shift, k)
  {
    var m, i := Mask(key.hash, shift), Mask(k.hash, shift);
    var child := Singleton(shift + NODE_LOG_SIZE, key, val);
    var r := Grow(node, shift, key, val).node;
    SmallBitmap(node.bitmap, 4); assert Pow2(4) == 16;
    FindInArray(r.count, r.nodes, shift, k);
    FindInSlot(node.bitmap, node.slots, shift, k);
    PromotedAt(node.bitmap, node.slots, shift, m, child, NODE_SIZE, i);
    if Bit(node.bitmap, i) {
      FindInSlotNode(node.slots[Rank(node.bitmap, i)], shift + NODE_LOG_SIZE, k);
    } else if i == m {
      PreStep(key.hash, shift, Pre(key.hash, shift), m);
      PreStep(k.hash, shift, Pre(key.hash, shift), m);
      FindInSingleton(shift + NODE_LOG_SIZE, key, val, k);
    }
  }

  // ---- Association ----

  /** After associating `key` with `val`: equivalent keys find the new value, under the key stored
      first, every other key finds what it found before, and `addedLeaf` says whether the key is new. */
  lemma {:induction false} FindAssoc(node: Node, shift: nat, key: Key, val: Val, k: Key)
    requires Valid(node, shift, Pre(key.hash, shift)) && Pre(k.hash, shift) == Pre(key.hash, shift)
    ensures Find(Assoc(node, shift, key, val).node, shift, k)
            == if Equiv(key, k) then Some(Updated(Find(node, shift, key), key, val)) else Find(node, shift, k)
    ensures Assoc(node, shift, key, val).addedLeaf <==> Find(node, shift, key) == None
    decreases 40 - shift, if node.Collision? then 5 else 3
  {
    match node
    case Bitmap(_, _) => FindAssocBitmap(node, shift, key, val, k);
    case Array(_, _) => FindAssocArray(node, shift, key, val, k);
    case Collision(_, _) => FindAssocCollision(node, shift, key, val, k);
  }

  lemma {:induction false} FindAssocBitmap(node: Node, shift: nat, key: Key, val: Val, k: Key)
    requires node.Bitmap?
    requires Valid(node, shift, Pre(key.hash, shift)) && Pre(k.hash, shift) == Pre(key.hash, shift)
    ensures Find(AssocBitmap(node, shift, key, val).node, shift, k)
            == if Equiv(key, k) then Some(Updated(Find(node, shift, key), key, val)) else Find(node, shift, k)
    ensures AssocBitmap(node, shift, key, val).addedLeaf <==> Find(node, shift, key) == None
    decreases 40 - shift, 1
  {
    hide Find, Valid;
    var m := Mask(key.hash, shift);
    SlotFor(node.bitmap, node.slots, shift, key);
    FindInSlot(node.bitmap, node.slots, shift, key);
    if Bit(node.bitmap, m) {
      FindAssocOccupied(node, shift, key, val, k);
    } else if PopCount(node.bitmap) >= NODE_SIZE / 2 {
      FindGrow(node, shift, key, val, k);
    } else {
      MaskAt30(key.hash);
      InsertSlotValid(node.bitmap, node.slots, shift, Pre(key.hash, shift), m, Leaf(key, val));
      FindInsertSlot(node.bitmap, node.slots, shift, m, Leaf(key, val), k);
      FindInSlot(node.bitmap, node.slots, shift, k);
    }
  }

  lemma {:induction false} FindAssocOccupied(node: Node, shift: nat, key: Key, val: Val, k: Key)
    requires node.Bitmap? && Bit(node.bitmap, Mask(key.hash, shift))
    requires Valid(node, shift, Pre(key.hash, shift)) && Pre(k.hash, shift) == Pre(key.hash, shift)
    ensures Find(AssocBitmap(node, shift, key, val).node, shift, k)
            == if Equiv(key, k) then Some(Updated(Find(node, shift, key), key, val)) else Find(node, shift, k)
    ensures AssocBitmap(node, shift, key, val).addedLeaf <==> Find(node, shift, key) == None
    decreases 40 - shift, 0
  {
    hide Find, AssocSlot, FindSlot, PopCount, Rank, Bit, Low, Pre, Mask, ValidSlot;
    var Bitmap(bitmap, slots) := node;
    var m := Mask(key.hash, shift);
    SlotFor(bitmap, slots, shift, key);
    FindInSlot(bitmap, slots, shift, key);
    FindInSlot(bitmap, slots, shift, k);
    var slot := slots[Rank(bitmap, m)];
    var r := AssocSlot(slot, shift + NODE_LOG_SIZE, key, val);
    SetSlotValid(bitmap, slots, shift, Pre(key.hash, shift), m, r.slot);
    assert r.slot == slot ==> slots[Rank(bitmap, m) := r.slot] == slots;
    FindSetSlot(bitmap, slots, shift, m, r.slot, k);
    FindAssocSlot(slot, shift + NODE_LOG_SIZE, key, val, key);
    if Mask(k.hash, shift) == m {
      PreStep(k.hash, shift, Pre(k.hash, shift), m);
      FindAssocSlot(slot, shift + NODE_LOG_SIZE, key, val, k);
    }
  }

  lemma {:induction false} FindAssocSlot(slot: Slot, shift: nat, key: Key, val: Val, k: Key)
    requires shift % NODE_LOG_SIZE == 0 && 5 <= shift <= 35
    requires ValidSlot(slot, shift, Pre(key.hash, shift)) && Pre(k.hash, shift) == Pre(key.hash, shift)
    ensures FindSlot(AssocSlot(slot, shift, key, val).slot, shift, k)
            == if Equiv(key, k) then Some(Updated(FindSlot(slot, shift, key), key, val)) else FindSlot(slot, shift, k)
    ensures AssocSlot(slot, shift, key, val).addedLeaf <==> FindSlot(slot, shift, key) == None
    decreases 40 - shift, 7
  {
    match slot
    case Child(child) => FindAssoc(child, shift, key, val, k);
    case Leaf(lookupKey, lookupVal) =>
      if !Equiv(key, lookupKey) { FindCreateNode(shift, lookupKey, lookupVal, key, val, k); }
  }

  lemma {:induction false} FindCreateNode(shift: nat, key1: Key, val1: Val, key2: Key, val2: Val, k: Key)
    requires shift % NODE_LOG_SIZE == 0 && shift <= 35
    requires !Equiv(key1, key2) && Pre(key1.hash, shift) == Pre(key2.hash, shift) == Pre(k.hash, shift)
    ensures Find(CreateNode(shift, key1, val1, key2, val2), shift, k)
            == if Equiv(key2, k) then Some(Entry(key2, val2))
               else if Equiv(key1, k) then Some(Entry(key1, val1))
               else None
    decreases 40 - shift, 6
  {
    if key1.hash == key2.hash {
      var entries := [Entry(key1, val1), Entry(key2, val2)];
      FindIndexUnique(entries, k);
      assert entries[0].key == key1 && entries[1].key == key2;
    } else {
      Pre35(key1.hash); Pre35(key2.hash);
      EmptyValid(shift, Pre(key1.hash, shift));
      var first := Assoc(EmptyBMINode, shift, key1, val1).node;
      FindInEmpty(shift, k);
      FindInEmpty(shift, key1);
      FindInEmpty(shift, key2);
      FindAssoc(EmptyBMINode, shift, key1, val1, k);
      FindAssoc(EmptyBMINode, shift, key1, val1, key2);
      FindAssoc(first, shift, key2, val2, k);
    }
  }

  lemma {:induction false} FindAssocArray(node: Node, shift: nat, key: Key, val: Val, k: Key)
    requires node.Array?
    requires Valid(node, shift, Pre(key.hash, shift)) && Pre(k.hash, shift) == Pre(key.hash, shift)
    ensures Find(AssocArray(node, shift, key, val).node, shift, k)
            == if Equiv(key, k) then Some(Updated(Find(node, shift, key), key, val)) else Find(node, shift, k)
    ensures AssocArray(node, shift, key, val).addedLeaf <==> Find(node, shift, key) == None
    decreases 40 - shift, 1
  {
    var Array(count, nodes) := node;
    var m := Mask(key.hash, shift);
    var r := AssocArray(node, shift, key, val).node;
    FindInArray(count, nodes, shift, key);
    FindInArray(count, nodes, shift, k);
    FindInArray(r.count, r.nodes, shift, k);
    PreStep(key.hash, shift, Pre(key.hash, shift), m);
    PreStep(k.hash, shift, Pre(key.hash, shift), Mask(k.hash, shift));
    if nodes[m].None? {
      if Mask(k.hash, shift) == m { FindInSingleton(shift + NODE_LOG_SIZE, key, val, k); }
    } else {
      FindAssoc(nodes[m].value, shift + NODE_LOG_SIZE, key, val, key);
      if Mask(k.hash, shift) == m { FindAssoc(nodes[m].value, shift + NODE_LOG_SIZE, key, val, k); }
    }
  }

  lemma {:induction false} FindAssocCollision(node: Node, shift: nat, key: Key, val: Val, k: Key)
    requires node.Collision?
    requires Valid(node, shift, Pre(key.hash, shift)) && Pre(k.hash, shift) == Pre(key.hash, shift)
    ensures Find(AssocCollision(node, shift, key, val).node, shift, k)
            == if Equiv(key, k) then Some(Updated(Find(node, shift, key), key, val)) else Find(node, shift, k)
    ensures AssocCollision(node, shift, key, val).addedLeaf <==> Find(node, shift, key) == None
    decreases 40 - shift, 4
  {
    var Collision(hash, entries) := node;
    if key.hash == hash {
      var i := FindIndex(entries, key);
      FindIndexUnique(entries, k);
      if i != -1 {
        FindIndexUpdate(entries, i, val, k);
      } else {
        FindIndexAppend(entries, Entry(key, val), k);
      }
    } else {
      WrapValid(node, shift, key);
      FindInWrap(node, shift, key);
      FindInWrap(node, shift, k);
      FindAssoc(Wrap(node, shift), shift, key, val, k);
    }
  }

  /** Keys of one collision node are pairwise inequivalent, so any matching index is the one found. */
  lemma FindIndexUnique(entries: seq<Entry>, key: Key)
    requires forall i, j | 0 <= i < j < |entries| :: !Equiv(entries[i].key, entries[j].key)
    ensures forall j | 0 <= j < |entries| && Equiv(key, entries[j].key) :: FindIndex(entries, key) == j
  {
  }

  lemma {:induction false} FindIndexUpdate(entries: seq<Entry>, i: nat, val: Val, k: Key)
    requires i < |entries|
    ensures FindIndex(entries[i := Entry(entries[i].key, val)], k) == FindIndex(entries, k)
  {
    var entries' := entries[i := Entry(entries[i].key, val)];
    if i == 0 {
      assert entries'[1..] == entries[1..];
    } else {
      FindIndexUpdate(entries[1..], i - 1, val, k);
      assert entries'[1..] == entries[1..][i - 1 := Entry(entries[i].key, val)];
    }
  }

  lemma {:induction false} FindIndexAppend(entries: seq<Entry>, e: Entry, k: Key)
    ensures FindIndex(entries + [e], k)
            == if FindIndex(entries, k) != -1 then FindIndex(entries, k)
               else if Equiv(k, e.key) then |entries| else -1
  {
    if entries != [] {
      FindIndexAppend(entries[1..], e, k);
      assert (entries + [e])[1..] == entries[1..] + [e];
    } else {
      assert (entries + [e])[1..] == [];
    }
  }

  lemma FindInWrap(node: Node, shift: nat, k: Key)
    requires node.Collision? && shift <= 30 && Valid(node, shift, Pre(k.hash, shift))
    requires Valid(Wrap(node, shift), shift, Pre(k.hash, shift))
    ensures Find(Wrap(node, shift), shift, k) == Find(node, shift, k)
  {
    var m := Mask(node.hash, shift);
    FindInEmpty(shift, k);
    BitOfZero(m);
    RankOfZero(m);
    OrZero(Pow2(m));
    assert Insert([], 0, Child(node)) == [Child(node)];
    FindInsertSlot(0, [], shift, m, Child(node), k);
    if FindIndex(node.entries, k) != -1 {
      assert k.hash == node.hash;
    }
  }

  // ---- Removal ----

  function FindOpt(node: Option<Node>, shift: nat, key: Key): Option<Entry>
    requires node.Some? ==> Valid(node.value, shift, Pre(key.hash, shift))
  {
    if node.Some? then Find(node.value, shift, key) else None
  }

  /** After removing `key`: equivalent keys find nothing, every other key finds what it found before,
      and the node comes back unchanged exactly when there was nothing to remove. */
  lemma {:induction false} FindWithout(node: Node, shift: nat, key: Key, k: Key)
    requires Valid(node, shift, Pre(key.hash, shift)) && Pre(k.hash, shift) == Pre(key.hash, shift)
    ensures FindOpt(Without(node, shift, key), shift, k)
            == if Equiv(key, k) then None else Find(node, shift, k)
    ensures Without(node, shift, key) == Some(node) <==> Find(node, shift, key) == None
    decreases node, 1
  {
    match node
    case Bitmap(_, _) => FindWithoutBitmap(node, shift, key, k);
    case Array(_, _) => FindWithoutArray(node, shift, key, k);
    case Collision(_, _) => FindWithoutCollision(node, shift, key, k);
  }

  lemma {:induction false} FindWithoutBitmap(node: Node, shift: nat, key: Key, k: Key)
    requires node.Bitmap?
    requires Valid(node, shift, Pre(key.hash, shift)) && Pre(k.hash, shift) == Pre(key.hash, shift)
    ensures FindOpt(WithoutBitmap(node, shift, key), shift, k)
            == if Equiv(key, k) then None else Find(node, shift, k)
    ensures WithoutBitmap(node, shift, key) == Some(node) <==> Find(node, shift, key) == None
    decreases node, 0
  {
    hide Find, PopCount, Rank, Low, Xor, Pow2;
    var Bitmap(bitmap, slots) := node;
    var m := Mask(key.hash, shift);
    SlotFor(bitmap, slots, shift, key);
    FindInSlot(bitmap, slots, shift, key);
    FindInSlot(bitmap, slots, shift, k);
    if Bit(bitmap, m) {
      var slot := slots[Rank(bitmap, m)];
      RemoveSlotValid(bitmap, slots, shift, Pre(key.hash, shift), m);
      PreStep(k.hash, shift, Pre(k.hash, shift), m);
      match slot {
        case Child(child) =>
          FindWithout(child, shift + NODE_LOG_SIZE, key, key);
          if Mask(k.hash, shift) == m { FindWithout(child, shift + NODE_LOG_SIZE, key, k); }
          var n := Without(child, shift + NODE_LOG_SIZE, key);
          if n == Some(child) {
          } else if n.Some? {
            SetSlotValid(bitmap, slots, shift, Pre(key.hash, shift), m, Child(n.value));
            FindSetSlot(bitmap, slots, shift, m, Child(n.value), k);
          } else {
            FindRemoveSlot(bitmap, slots, shift, m, k);
            if bitmap == Pow2(m) { OnlyBit(m, Mask(k.hash, shift)); }
          }
        case Leaf(_, _) =>
          FindRemoveSlot(bitmap, slots, shift, m, k);
      }
    }
  }

  lemma OnlyBit(m: nat, i: nat)
    ensures Bit(Pow2(m), i) <==> i == m
  {
    OrZero(Pow2(m));
    OrSetsBit(0, m, i);
    BitOfZero(i);
  }

  lemma {:induction false} FindWithoutArray(node: Node, shift: nat, key: Key, k: Key)
    requires node.Array?
    requires Valid(node, shift, Pre(key.hash, shift)) && Pre(k.hash, shift) == Pre(key.hash, shift)
    ensures FindOpt(WithoutArray(node, shift, key), shift, k)
            == if Equiv(key, k) then None else Find(node, shift, k)
    ensures WithoutArray(node, shift, key) == Some(node) <==> Find(node, shift, key) == None
    decreases node, 0
  {
    hide Pre, Bit;
    var Array(count, nodes) := node;
    var m, i := Mask(key.hash, shift), Mask(k.hash, shift);
    FindInArray(count, nodes, shift, key);
    FindInArray(count, nodes, shift, k);
    PreStep(key.hash, shift, Pre(key.hash, shift), m);
    PreStep(k.hash, shift, Pre(key.hash, shift), i);
    if nodes[m].Some? {
      var n := Without(nodes[m].value, shift + NODE_LOG_SIZE, key);
      FindWithout(nodes[m].value, shift + NODE_LOG_SIZE, key, key);
      if i == m { FindWithout(nodes[m].value, shift + NODE_LOG_SIZE, key, k); }
      var r := WithoutArray(node, shift, key).value;
      if n.None? && count <= NODE_SIZE / 4 {
        PackBits(nodes, m, NODE_SIZE);
        PackValid(count, nodes, shift, Pre(key.hash, shift), m);
        FindInSlot(r.bitmap, r.slots, shift, k);
      } else if n != nodes[m] {
        FindInArray(r.count, r.nodes, shift, k);
      }
    }
  }

  lemma {:induction false} FindWithoutCollision(node: Node, shift: nat, key: Key, k: Key)
    requires node.Collision?
    requires Valid(node, shift, Pre(key.hash, shift)) && Pre(k.hash, shift) == Pre(key.hash, shift)
    ensures FindOpt(WithoutCollision(node, shift, key), shift, k)
            == if Equiv(key, k) then None else Find(node, shift, k)
    ensures WithoutCollision(node, shift, key) == Some(node) <==> Find(node, shift, key) == None
  {
    var entries := node.entries;
    var i := FindIndex(entries, key);
    if i != -1 {
      FindIndexUnique(entries, k);
      if |entries| > 1 {
        var entries' := Remove(entries, i);
        FindIndexUnique(entries', k);
        var j := FindIndex(entries, k);
        if j != -1 && j != i {
          assert entries'[if j < i then j else j - 1] == entries[j];
        }
        assert forall x | 0 <= x < |entries'| :: entries'[x] == entries[if x < i then x else x + 1];
        if FindIndex(entries', k) != -1 {
          var x := FindIndex(entries', k);
          assert Equiv(k, entries[if x < i then x else x + 1].key);
        }
      }
    }
  }
}
