/** The sizes of trie nodes (src/Map.c:371-400, 505-549): a bitmap node has at most sixteen children,
    where it would get a seventeenth it turns into an array node, and an array node with fewer than
    eight turns back. */
module HamtShape {
  import opened Bits
  import opened Wrappers
  import opened HamtNodes
  import opened Hamt
  import opened HamtMap

  ghost predicate Narrow(node: Node)
    decreases node
  {
    match node
    case Bitmap(_, slots) => |slots| <= NODE_SIZE / 2 && forall i | 0 <= i < |slots| :: NarrowSlot(slots[i])
    case Array(count, nodes) =>
      NODE_SIZE / 4 <= count <= NODE_SIZE && forall i | 0 <= i < |nodes| :: NarrowCell(nodes[i])
    case Collision(_, _) => true
  }

  ghost predicate NarrowSlot(slot: Slot)
    decreases slot
  {
    slot.Child? ==> Narrow(slot.node)
  }

  ghost predicate NarrowCell(cell: Option<Node>)
    decreases cell
  {
    cell.Some? ==> Narrow(cell.value)
  }

  lemma SingletonNarrow(shift: nat, key: Key, val: Val)
    ensures Narrow(Singleton(shift, key, val)) && Narrow(EmptyBMINode)
  {
  }

  lemma {:induction false} AssocNarrow(node: Node, shift: nat, key: Key, val: Val)
    requires Valid(node, shift, Pre(key.hash, shift)) && Narrow(node)
    ensures Narrow(Assoc(node, shift, key, val).node)
    decreases 40 - shift, if node.Collision? then 5 else 3
  {
    match node {
      case Bitmap(_, _) => AssocBitmapNarrow(node, shift, key, val);
      case Array(_, _) => AssocArrayNarrow(node, shift, key, val);
      case Collision(hash, entries) =>
        if key.hash != hash {
          WrapValid(node, shift, key);
          AssocBitmapNarrow(Wrap(node, shift), shift, key, val);
          assert Assoc(Wrap(node, shift), shift, key, val) == AssocBitmap(Wrap(node, shift), shift, key, val);
          assert Assoc(node, shift, key, val) == Assoc(Wrap(node, shift), shift, key, val);
        }
    }
  }

  lemma {:induction false} AssocBitmapNarrow(node: Node, shift: nat, key: Key, val: Val)
    requires node.Bitmap? && Valid(node, shift, Pre(key.hash, shift)) && Narrow(node)
    ensures Narrow(AssocBitmap(node, shift, key, val).node)
    decreases 40 - shift, 1
  {
    hide PopCount, Low, Or, Valid, Pow2, Shr, AssocSlot, Grow, Bit, Rank;
    ValidShift(node, shift, key);
    SlotFor(node.bitmap, node.slots, shift, key);
    var bit := BitPos(key.hash, shift);
    var idx := Index(node.bitmap, bit);
    if And(node.bitmap, bit) != 0 {
      assert NarrowSlot(node.slots[idx]);
      AssocSlotNarrow(node.slots[idx], shift + NODE_LOG_SIZE, key, val);
    } else if PopCount(node.bitmap) >= NODE_SIZE / 2 {
      GrowNarrow(node, shift, key, val);
    } else {
      InsertNarrow(node.slots, idx, Leaf(key, val));
    }
  }

  lemma InsertNarrow(slots: seq<Slot>, idx: nat, slot: Slot)
    requires idx <= |slots| && NarrowSlot(slot) && forall i | 0 <= i < |slots| :: NarrowSlot(slots[i])
    ensures |Insert(slots, idx, slot)| == |slots| + 1
    ensures forall i | 0 <= i < |Insert(slots, idx, slot)| :: NarrowSlot(Insert(slots, idx, slot)[i])
  {
  }

  lemma {:induction false} AssocSlotNarrow(slot: Slot, shift: nat, key: Key, val: Val)
    requires shift % NODE_LOG_SIZE == 0 && 5 <= shift <= 35
    requires ValidSlot(slot, shift, Pre(key.hash, shift)) && NarrowSlot(slot)
    ensures NarrowSlot(AssocSlot(slot, shift, key, val).slot)
    decreases 40 - shift, 7
  {
    match slot {
      case Child(child) => AssocNarrow(child, shift, key, val);
      case Leaf(lookupKey, lookupVal) =>
        if !Equiv(key, lookupKey) { CreateNarrow(shift, lookupKey, lookupVal, key, val); }
    }
  }

  lemma {:induction false} CreateNarrow(shift: nat, key1: Key, val1: Val, key2: Key, val2: Val)
    requires shift % NODE_LOG_SIZE == 0 && shift <= 35
    requires !Equiv(key1, key2) && Pre(key1.hash, shift) == Pre(key2.hash, shift)
    ensures Narrow(CreateNode(shift, key1, val1, key2, val2))
    decreases 40 - shift, 6
  {
    if key1.hash != key2.hash {
      Pre35(key1.hash);
      Pre35(key2.hash);
      EmptyValid(shift, Pre(key1.hash, shift));
      AssocToEmpty(shift, key1, val1);
      SingletonNarrow(shift, key1, val1);
      AssocNarrow(Assoc(EmptyBMINode, shift, key1, val1).node, shift, key2, val2);
    }
  }

  lemma GrowNarrow(node: Node, shift: nat, key: Key, val: Val)
    requires node.Bitmap? && Valid(node, shift, Pre(key.hash, shift)) && Narrow(node)
    requires PopCount(node.bitmap) >= NODE_SIZE / 2 && !Bit(node.bitmap, Mask(key.hash, shift))
    ensures Narrow(Grow(node, shift, key, val).node)
  {
    var m, child := Mask(key.hash, shift), Singleton(shift + NODE_LOG_SIZE, key, val);
    SingletonNarrow(shift + NODE_LOG_SIZE, key, val);
    var nodes := Promoted(node.bitmap, node.slots, shift, m, child, NODE_SIZE);
    forall i | 0 <= i < NODE_SIZE ensures NarrowCell(nodes[i]) {
      PromotedAt(node.bitmap, node.slots, shift, m, child, NODE_SIZE, i);
      if Bit(node.bitmap, i) {
        var slot := node.slots[Rank(node.bitmap, i)];
        assert NarrowSlot(slot);
        if slot.Leaf? { SingletonNarrow(shift + NODE_LOG_SIZE, slot.key, slot.val); }
      }
    }
  }

  lemma {:induction false} AssocArrayNarrow(node: Node, shift: nat, key: Key, val: Val)
    requires node.Array? && Valid(node, shift, Pre(key.hash, shift)) && Narrow(node)
    ensures Narrow(AssocArray(node, shift, key, val).node)
    decreases 40 - shift, 1
  {
    var Array(count, nodes) := node;
    var idx := Mask(key.hash, shift);
    ValidShift(node, shift, key);
    if nodes[idx].None? {
      SingletonNarrow(shift + NODE_LOG_SIZE, key, val);
      RoomLeft(nodes, idx);
    } else {
      assert NarrowCell(nodes[idx]);
      AssocNarrow(nodes[idx].value, shift + NODE_LOG_SIZE, key, val);
    }
  }

  lemma {:induction false} RoomLeft(nodes: seq<Option<Node>>, idx: nat)
    requires idx < |nodes| && nodes[idx].None?
    ensures CountSome(nodes) < |nodes|
  {
    var n := |nodes| - 1;
    if idx < n { RoomLeft(nodes[..n], idx); } else { CountBelow(nodes[..n]); }
  }

  lemma {:induction false} CountBelow(nodes: seq<Option<Node>>)
    ensures CountSome(nodes) <= |nodes|
  {
    if nodes != [] { CountBelow(nodes[..|nodes| - 1]); }
  }

  lemma {:induction false} WithoutNarrow(node: Node, shift: nat, key: Key)
    requires Valid(node, shift, Pre(key.hash, shift)) && Narrow(node)
    ensures Without(node, shift, key).Some? ==> Narrow(Without(node, shift, key).value)
    decreases node
  {
    match node {
      case Bitmap(bitmap, slots) =>
        SlotFor(bitmap, slots, shift, key);
        if And(bitmap, BitPos(key.hash, shift)) != 0 {
          var idx := Index(bitmap, BitPos(key.hash, shift));
          assert NarrowSlot(slots[idx]);
          if slots[idx].Child? { WithoutNarrow(slots[idx].node, shift + NODE_LOG_SIZE, key); }
          RemoveNarrow(slots, idx);
        }
      case Array(count, nodes) =>
        ValidShift(node, shift, key);
        var idx := Mask(key.hash, shift);
        if nodes[idx].Some? {
          assert NarrowCell(nodes[idx]);
          WithoutNarrow(nodes[idx].value, shift + NODE_LOG_SIZE, key);
          PackNarrow(nodes, idx, NODE_SIZE);
          if count <= NODE_SIZE / 4 { PackValid(count, nodes, shift, Pre(key.hash, shift), idx); }
        }
      case Collision(_, _) =>
    }
  }

  lemma RemoveNarrow(slots: seq<Slot>, idx: nat)
    requires idx < |slots| && forall i | 0 <= i < |slots| :: NarrowSlot(slots[i])
    ensures |Remove(slots, idx)| == |slots| - 1
    ensures forall i | 0 <= i < |Remove(slots, idx)| :: NarrowSlot(Remove(slots, idx)[i])
  {
  }

  lemma {:induction false} PackNarrow(nodes: seq<Option<Node>>, idx: nat, n: nat)
    requires n <= |nodes| && forall i | 0 <= i < |nodes| :: NarrowCell(nodes[i])
    ensures forall i | 0 <= i < |Pack(nodes, idx, n).slots| :: NarrowSlot(Pack(nodes, idx, n).slots[i])
  {
    if n > 0 {
      PackNarrow(nodes, idx, n - 1);
      assert NarrowCell(nodes[n - 1]);
    }
  }

  /** Any run keeps every node within its bounds. */
  lemma {:induction false} RunNarrow(hm: HashMap, ops: seq<Op>)
    requires ValidMap(hm) && (hm.root.Some? ==> Narrow(hm.root.value))
    ensures Run(hm, ops).root.Some? ==> Narrow(Run(hm, ops).root.value)
    decreases |ops|
  {
    if ops != [] {
      match ops[0] {
        case AssocOp(key, val) =>
          if key.Some? {
            EmptyValid(0, 0);
            SingletonNarrow(0, key.value, val);
            AssocNarrow(if hm.root.Some? then hm.root.value else EmptyBMINode, 0, key.value, val);
          }
          RunNarrow(AssocHashMap(hm, key, val), ops[1..]);
        case WithoutOp(key) =>
          if key.Some? && hm.root.Some? { WithoutNarrow(hm.root.value, 0, key.value); }
          RunNarrow(WithoutHashMap(hm, key), ops[1..]);
      }
    }
  }
}
