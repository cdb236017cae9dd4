/** Lookup, association and removal on the trie (src/Map.c:319-653), and the proof that each
    of them does to every key what a finite map would do. */
module Hamt {
  import opened Bits
  import opened Wrappers
  import opened HamtNodes

  // ---- Collision nodes ----

  /** The first index of a key equivalent to `key`, or -1. */
  function FindIndex(entries: seq<Entry>, key: Key): (i: int)
    ensures -1 <= i < |entries|
    ensures i != -1 ==> Equiv(key, entries[i].key)
    ensures i == -1 ==> forall j | 0 <= j < |entries| :: !Equiv(key, entries[j].key)
  {
    if entries == [] then -1
    else if Equiv(key, entries[0].key) then 0
    else
      var i := FindIndex(entries[1..], key);
      assert forall j | 0 < j < |entries| :: entries[j] == entries[1..][j - 1];
      if i == -1 then -1 else i + 1
  }

  // ---- Lookup ----

  function Find(node: Node, shift: nat, key: Key): Option<Entry>
    requires Valid(node, shift, Pre(key.hash, shift))
    decreases node
  {
    match node
    case Bitmap(bitmap, slots) =>
      var bit := BitPos(key.hash, shift);
      if And(bitmap, bit) == 0 then None
      else
        var idx := Index(bitmap, bit);
        SlotFor(bitmap, slots, shift, key);
        match slots[idx] {
          case Child(child) => Find(child, shift + NODE_LOG_SIZE, key)
          case Leaf(lookupKey, lookupVal) =>
            if Equiv(key, lookupKey) then Some(Entry(lookupKey, lookupVal)) else None
        }
    case Array(_, nodes) =>
      var child := nodes[Mask(key.hash, shift)];
      PreStep(key.hash, shift, Pre(key.hash, shift), Mask(key.hash, shift));
      if child.None? then None else Find(child.value, shift + NODE_LOG_SIZE, key)
    case Collision(_, entries) =>
      var i := FindIndex(entries, key);
      if i == -1 then None else Some(entries[i])
  }

  /** The bit test and the popcount index of the C code, in terms of bits and ranks. */
  lemma SlotFor(bitmap: nat, slots: seq<Slot>, shift: nat, key: Key)
    requires Valid(Bitmap(bitmap, slots), shift, Pre(key.hash, shift))
    ensures var m := Mask(key.hash, shift);
            && (And(bitmap, BitPos(key.hash, shift)) != 0 <==> Bit(bitmap, m))
            && Index(bitmap, BitPos(key.hash, shift)) == Rank(bitmap, m) <= |slots|
            && Pre(key.hash, shift + NODE_LOG_SIZE) == ChildPre(Pre(key.hash, shift), m, shift)
            && (Bit(bitmap, m) ==> Rank(bitmap, m) < |slots| &&
                                   ValidSlot(slots[Rank(bitmap, m)], shift + NODE_LOG_SIZE,
                                     Pre(key.hash, shift + NODE_LOG_SIZE)))
  {
    var m := Mask(key.hash, shift);
    AndTestsBit(bitmap, m);
    IndexIsRank(bitmap, key.hash, shift);
    SlotOfBit(bitmap, m);
    PreStep(key.hash, shift, Pre(key.hash, shift), m);
  }

  // ---- Association ----

  datatype AssocResult = AssocResult(node: Node, addedLeaf: bool)

  /** What `assoc` on the empty bitmap node builds. */
  function Singleton(shift: nat, key: Key, val: Val): Node {
    Bitmap(BitPos(key.hash, shift), [Leaf(key, val)])
  }

  lemma EmptyValid(shift: nat, pre: nat)
    requires shift % NODE_LOG_SIZE == 0 && shift <= 30 && pre < Pow2(shift)
    ensures Valid(EmptyBMINode, shift, pre)
  {
    forall i: nat ensures !Bit(0, i) { BitOfZero(i); }
  }

  lemma SingletonValid(shift: nat, key: Key, val: Val)
    requires shift % NODE_LOG_SIZE == 0 && shift <= 30
    ensures Valid(Singleton(shift, key, val), shift, Pre(key.hash, shift))
    ensures PopCount(BitPos(key.hash, shift)) == 1
    ensures Or(0, BitPos(key.hash, shift)) == BitPos(key.hash, shift)
  {
    var m, pre := Mask(key.hash, shift), Pre(key.hash, shift);
    EmptyValid(shift, pre);
    BitOfZero(m);
    RankOfZero(m);
    MaskAt30(key.hash);
    PreStep(key.hash, shift, pre, m);
    InsertSlotValid(0, [], shift, pre, m, Leaf(key, val));
    OrZero(Pow2(m));
    assert Insert([], 0, Leaf(key, val)) == [Leaf(key, val)];
  }

  /** The subtrie that a slot becomes when its bitmap node grows into an array node. */
  function SlotNode(slot: Slot, shift: nat): Node {
    match slot
    case Leaf(key, val) => Singleton(shift, key, val)
    case Child(node) => node
  }

  /** The first `n` cells of the array node grown from a bitmap node and the new cell `m`. */
  function Promoted(bitmap: nat, slots: seq<Slot>, shift: nat, m: nat, node: Node, n: nat): (nodes: seq<Option<Node>>)
    requires bitmap < WORD && |slots| == PopCount(bitmap) && n <= NODE_SIZE
    ensures |nodes| == n
  {
    if n == 0 then []
    else
      var i := n - 1;
      SlotOfBit(bitmap, i);
      Promoted(bitmap, slots, shift, m, node, i) +
      [if Bit(bitmap, i) then Some(SlotNode(slots[Rank(bitmap, i)], shift + NODE_LOG_SIZE))
       else if i == m then Some(node)
       else None]
  }

  lemma {:induction false} PromotedAt(bitmap: nat, slots: seq<Slot>, shift: nat, m: nat, node: Node, n: nat, i: nat)
    requires bitmap < WORD && |slots| == PopCount(bitmap) && i < n <= NODE_SIZE
    ensures Bit(bitmap, i) ==> Rank(bitmap, i) < |slots|
    ensures Promoted(bitmap, slots, shift, m, node, n)[i] ==
            if Bit(bitmap, i) then Some(SlotNode(slots[Rank(bitmap, i)], shift + NODE_LOG_SIZE))
            else if i == m then Some(node)
            else None
  {
    SlotOfBit(bitmap, i);
    if i < n - 1 { PromotedAt(bitmap, slots, shift, m, node, n - 1, i); }
  }

  lemma {:induction false} PromotedCount(bitmap: nat, slots: seq<Slot>, shift: nat, m: nat, node: Node, n: nat)
    requires bitmap < WORD && |slots| == PopCount(bitmap) && n <= NODE_SIZE && !Bit(bitmap, m)
    ensures CountSome(Promoted(bitmap, slots, shift, m, node, n)) == Rank(bitmap, n) + if m < n then 1 else 0
  {
    if n > 0 {
      PromotedCount(bitmap, slots, shift, m, node, n - 1);
      RankStep(bitmap, n - 1);
      var nodes := Promoted(bitmap, slots, shift, m, node, n);
      assert nodes[..|nodes| - 1] == Promoted(bitmap, slots, shift, m, node, n - 1);
    }
  }

  lemma {:induction false} RankStep(b: nat, i: nat)
    ensures Rank(b, i + 1) == Rank(b, i) + if Bit(b, i) then 1 else 0
  {
    if i > 0 { RankStep(b / 2, i - 1); }
  }

  lemma SlotNodeValid(slot: Slot, shift: nat, pre: nat)
    requires shift % NODE_LOG_SIZE == 0 && shift <= 30
    requires ValidSlot(slot, shift, pre)
    ensures Valid(SlotNode(slot, shift), shift, pre)
  {
    if slot.Leaf? { SingletonValid(shift, slot.key, slot.val); }
  }

  lemma PromotedValid(bitmap: nat, slots: seq<Slot>, shift: nat, pre: nat, m: nat, node: Node)
    requires Valid(Bitmap(bitmap, slots), shift, pre) && PopCount(bitmap) >= NODE_SIZE / 2
    requires m < NODE_SIZE && !Bit(bitmap, m)
    requires Valid(node, shift + NODE_LOG_SIZE, ChildPre(pre, m, shift))
    ensures Valid(Array(PopCount(bitmap) + 1, Promoted(bitmap, slots, shift, m, node, NODE_SIZE)), shift, pre)
  {
    var nodes := Promoted(bitmap, slots, shift, m, node, NODE_SIZE);
    SmallBitmap(bitmap, 4);
    assert Pow2(4) == 16;
    PromotedCount(bitmap, slots, shift, m, node, NODE_SIZE);
    Pow2Values();
    RankAll(bitmap, 32);
    forall i: nat | i < NODE_SIZE && nodes[i].Some?
      ensures Valid(nodes[i].value, shift + NODE_LOG_SIZE, ChildPre(pre, i, shift))
    {
      PromotedAt(bitmap, slots, shift, m, node, NODE_SIZE, i);
      if Bit(bitmap, i) {
        SlotNodeValid(slots[Rank(bitmap, i)], shift + NODE_LOG_SIZE, ChildPre(pre, i, shift));
      }
    }
  }

  /** At shift 30 only two hash bits are left, so a bitmap node never has sixteen children there. */
  lemma {:induction false} SmallBitmap(bitmap: nat, n: nat)
    ensures bitmap < Pow2(n) ==> PopCount(bitmap) <= n
  {
    if n > 0 { SmallBitmap(bitmap / 2, n - 1); }
  }

  lemma {:induction false} CountSet(nodes: seq<Option<Node>>, i: nat, x: Option<Node>)
    requires i < |nodes|
    ensures CountSome(nodes[i := x]) ==
            CountSome(nodes) - (if nodes[i].Some? then 1 else 0) + (if x.Some? then 1 else 0)
  {
    var n := |nodes| - 1;
    if i == n {
      assert nodes[i := x][..n] == nodes[..n];
    } else {
      CountSet(nodes[..n], i, x);
      assert nodes[i := x][..n] == nodes[..n][i := x];
    }
  }

  lemma CollisionAppendValid(hash: Word, entries: seq<Entry>, shift: nat, pre: nat, key: Key, val: Val)
    requires Valid(Collision(hash, entries), shift, pre)
    requires key.hash == hash && FindIndex(entries, key) == -1
    ensures Valid(Collision(hash, entries + [Entry(key, val)]), shift, pre)
  {
  }

  function CreateNode(shift: nat, key1: Key, val1: Val, key2: Key, val2: Val): (node: Node)
    requires shift % NODE_LOG_SIZE == 0 && shift <= 35
    requires !Equiv(key1, key2) && Pre(key1.hash, shift) == Pre(key2.hash, shift)
    ensures Valid(node, shift, Pre(key2.hash, shift))
    decreases 40 - shift, 6
  {
    if key1.hash == key2.hash then
      Collision(key1.hash, [Entry(key1, val1), Entry(key2, val2)])
    else
      Pre35(key1.hash); Pre35(key2.hash);
      EmptyValid(shift, Pre(key1.hash, shift));
      Assoc(Assoc(EmptyBMINode, shift, key1, val1).node, shift, key2, val2).node
  }

  function Assoc(node: Node, shift: nat, key: Key, val: Val): (r: AssocResult)
    requires Valid(node, shift, Pre(key.hash, shift))
    ensures Valid(r.node, shift, Pre(key.hash, shift))
    decreases 40 - shift, if node.Collision? then 5 else 3
  {
    match node
    case Bitmap(_, _) => AssocBitmap(node, shift, key, val)
    case Array(_, _) => AssocArray(node, shift, key, val)
    case Collision(_, _) => AssocCollision(node, shift, key, val)
  }

  function AssocBitmap(node: Node, shift: nat, key: Key, val: Val): (r: AssocResult)
    requires node.Bitmap? && Valid(node, shift, Pre(key.hash, shift))
    ensures Valid(r.node, shift, Pre(key.hash, shift))
    decreases 40 - shift, 1
  {
    var bit := BitPos(key.hash, shift);
    var idx := Index(node.bitmap, bit);
    SlotFor(node.bitmap, node.slots, shift, key);
    if And(node.bitmap, bit) != 0 then
      var r := AssocSlot(node.slots[idx], shift + NODE_LOG_SIZE, key, val);
      if r.slot == node.slots[idx] then AssocResult(node, r.addedLeaf)
      else AssocResult(SetSlot(node, shift, key, r.slot), r.addedLeaf)
    else if PopCount(node.bitmap) >= NODE_SIZE / 2 then Grow(node, shift, key, val)
    else AssocResult(InsertPair(node, shift, key, val), true)
  }

  /** A bitmap node with another slot for the bit of `key`. */
  function SetSlot(node: Node, shift: nat, key: Key, slot: Slot): (r: Node)
    requires node.Bitmap? && Valid(node, shift, Pre(key.hash, shift)) && Bit(node.bitmap, Mask(key.hash, shift))
    requires ValidSlot(slot, shift + NODE_LOG_SIZE, Pre(key.hash, shift + NODE_LOG_SIZE))
    ensures Valid(r, shift, Pre(key.hash, shift))
  {
    SlotFor(node.bitmap, node.slots, shift, key);
    SetSlotValid(node.bitmap, node.slots, shift, Pre(key.hash, shift), Mask(key.hash, shift), slot);
    Bitmap(node.bitmap, node.slots[Index(node.bitmap, BitPos(key.hash, shift)) := slot])
  }

  /** A bitmap node with a pair inserted at the place of its bit. */
  function InsertPair(node: Node, shift: nat, key: Key, val: Val): (r: Node)
    requires node.Bitmap? && Valid(node, shift, Pre(key.hash, shift)) && !Bit(node.bitmap, Mask(key.hash, shift))
    ensures Valid(r, shift, Pre(key.hash, shift))
  {
    var bit := BitPos(key.hash, shift);
    SlotFor(node.bitmap, node.slots, shift, key);
    MaskAt30(key.hash);
    InsertSlotValid(node.bitmap, node.slots, shift, Pre(key.hash, shift), Mask(key.hash, shift), Leaf(key, val));
    Bitmap(Or(node.bitmap, bit), Insert(node.slots, Index(node.bitmap, bit), Leaf(key, val)))
  }

  datatype SlotResult = SlotResult(slot: Slot, addedLeaf: bool)

  /** The three ways an occupied slot takes a new association. */
  function AssocSlot(slot: Slot, shift: nat, key: Key, val: Val): (r: SlotResult)
    requires shift % NODE_LOG_SIZE == 0 && 5 <= shift <= 35
    requires ValidSlot(slot, shift, Pre(key.hash, shift))
    ensures ValidSlot(r.slot, shift, Pre(key.hash, shift))
    decreases 40 - shift, 7
  {
    match slot
    case Child(child) =>
      var n := Assoc(child, shift, key, val);
      SlotResult(Child(n.node), n.addedLeaf)
    case Leaf(lookupKey, lookupVal) =>
      if Equiv(key, lookupKey) then SlotResult(Leaf(lookupKey, val), false)
      else SlotResult(Child(CreateNode(shift, lookupKey, lookupVal, key, val)), true)
  }

  /** A bitmap node with sixteen children turns into an array node. */
  function Grow(node: Node, shift: nat, key: Key, val: Val): (r: AssocResult)
    requires node.Bitmap? && Valid(node, shift, Pre(key.hash, shift))
    requires PopCount(node.bitmap) >= NODE_SIZE / 2 && !Bit(node.bitmap, Mask(key.hash, shift))
    ensures Valid(r.node, shift, Pre(key.hash, shift))
  {
    var m := Mask(key.hash, shift);
    var child := Singleton(shift + NODE_LOG_SIZE, key, val);
    SmallBitmap(node.bitmap, 4); assert Pow2(4) == 16;
    SingletonValid(shift + NODE_LOG_SIZE, key, val);
    PreStep(key.hash, shift, Pre(key.hash, shift), m);
    PromotedValid(node.bitmap, node.slots, shift, Pre(key.hash, shift), m, child);
    AssocResult(Array(PopCount(node.bitmap) + 1, Promoted(node.bitmap, node.slots, shift, m, child, NODE_SIZE)), true)
  }

  function AssocArray(node: Node, shift: nat, key: Key, val: Val): (r: AssocResult)
    requires node.Array? && Valid(node, shift, Pre(key.hash, shift))
    ensures Valid(r.node, shift, Pre(key.hash, shift))
    decreases 40 - shift, 1
  {
    var Array(count, nodes) := node;
    var idx := Mask(key.hash, shift);
    PreStep(key.hash, shift, Pre(key.hash, shift), idx);
    if nodes[idx].None? then
      var child := Singleton(shift + NODE_LOG_SIZE, key, val);
      SingletonValid(shift + NODE_LOG_SIZE, key, val);
      CountSet(nodes, idx, Some(child));
      AssocResult(Array(count + 1, nodes[idx := Some(child)]), true)
    else
      var n := Assoc(nodes[idx].value, shift + NODE_LOG_SIZE, key, val);
      CountSet(nodes, idx, Some(n.node));
      if n.node == nodes[idx].value then AssocResult(node, n.addedLeaf)
      else AssocResult(Array(count, nodes[idx := Some(n.node)]), n.addedLeaf)
  }

  function AssocCollision(node: Node, shift: nat, key: Key, val: Val): (r: AssocResult)
    requires node.Collision? && Valid(node, shift, Pre(key.hash, shift))
    ensures Valid(r.node, shift, Pre(key.hash, shift))
    decreases 40 - shift, 4
  {
    var Collision(hash, entries) := node;
    if key.hash == hash then
      var i := FindIndex(entries, key);
      if i != -1 then
        if entries[i].val == val then AssocResult(node, false)
        else AssocResult(Collision(hash, entries[i := Entry(entries[i].key, val)]), false)
      else
        CollisionAppendValid(hash, entries, shift, Pre(key.hash, shift), key, val);
        AssocResult(Collision(hash, entries + [Entry(key, val)]), true)
    else
      WrapValid(node, shift, key);
      Assoc(Wrap(node, shift), shift, key, val)
  }

  /** A collision node met by a different hash is first put under a bitmap node of its own. */
  function Wrap(node: Node, shift: nat): Node
    requires node.Collision?
  {
    Bitmap(BitPos(node.hash, shift), [Child(node)])
  }

  lemma WrapValid(node: Node, shift: nat, key: Key)
    requires node.Collision? && Valid(node, shift, Pre(key.hash, shift)) && node.hash != key.hash
    ensures shift <= 30 && Valid(Wrap(node, shift), shift, Pre(key.hash, shift))
  {
    Pre35(node.hash); Pre35(key.hash);
    var m, pre := Mask(node.hash, shift), Pre(key.hash, shift);
    EmptyValid(shift, pre);
    BitOfZero(m);
    RankOfZero(m);
    MaskAt30(node.hash);
    PreStep(node.hash, shift, pre, m);
    InsertSlotValid(0, [], shift, pre, m, Child(node));
    OrZero(Pow2(m));
    assert Insert([], 0, Child(node)) == [Child(node)];
  }

  // ---- Removal ----

  datatype Packed = Packed(bitmap: nat, slots: seq<Slot>)

  /** The bitmap node made from the first `n` cells of an array node, leaving out cell `idx`. */
  function Pack(nodes: seq<Option<Node>>, idx: nat, n: nat): Packed
    requires n <= |nodes|
  {
    if n == 0 then Packed(0, [])
    else
      var p := Pack(nodes, idx, n - 1);
      var i := n - 1;
      if i != idx && nodes[i].Some? then
        Packed(Or(p.bitmap, Pow2(i)), p.slots + [Child(nodes[i].value)])
      else p
  }

  /** Packing keeps exactly the occupied cells other than `idx`, each in the slot of its own bit. */
  lemma {:induction false} PackBits(nodes: seq<Option<Node>>, idx: nat, n: nat)
    requires n <= |nodes| <= NODE_SIZE
    ensures var p := Pack(nodes, idx, n);
            && p.bitmap < Pow2(n)
            && |p.slots| == PopCount(p.bitmap)
            && (forall j: nat :: Bit(p.bitmap, j) <==> j < n && j != idx && nodes[j].Some?)
            && (forall j: nat | Bit(p.bitmap, j) ::
                  Rank(p.bitmap, j) < |p.slots| && p.slots[Rank(p.bitmap, j)] == Child(nodes[j].value))
  {
    if n == 0 {
      forall j: nat ensures !Bit(0, j) { BitOfZero(j); }
    } else {
      var i := n - 1;
      var p := Pack(nodes, idx, i);
      PackBits(nodes, idx, i);
      if i != idx && nodes[i].Some? { PackBit(p, i, nodes[i].value); }
    }
  }

  lemma PackBit(p: Packed, i: nat, node: Node)
    requires p.bitmap < Pow2(i) && |p.slots| == PopCount(p.bitmap)
    requires forall j: nat | Bit(p.bitmap, j) :: Rank(p.bitmap, j) < |p.slots|
    ensures var b, slots := Or(p.bitmap, Pow2(i)), p.slots + [Child(node)];
            && b < Pow2(i + 1)
            && |slots| == PopCount(b)
            && (forall j: nat :: Bit(b, j) <==> Bit(p.bitmap, j) || j == i)
            && Rank(b, i) == |p.slots|
            && (forall j: nat | Bit(p.bitmap, j) :: Rank(b, j) == Rank(p.bitmap, j))
  {
    var b := Or(p.bitmap, Pow2(i));
    OrBound(p.bitmap, Pow2(i), i + 1);
    if Bit(p.bitmap, i) { BitBound(p.bitmap, i, i); }
    RankAll(p.bitmap, i);
    RankAll(b, i + 1);
    RankStep(p.bitmap, i);
    RankAfterOr(p.bitmap, i, i);
    RankAfterOr(p.bitmap, i, i + 1);
    forall j: nat ensures Bit(b, j) <==> Bit(p.bitmap, j) || j == i { OrSetsBit(p.bitmap, i, j); }
    forall j: nat | Bit(p.bitmap, j) ensures Rank(b, j) == Rank(p.bitmap, j) {
      BitBound(p.bitmap, j, i);
      RankAfterOr(p.bitmap, i, j);
    }
  }

  lemma {:induction false} PackCount(nodes: seq<Option<Node>>, idx: nat, n: nat)
    requires n <= |nodes|
    ensures |Pack(nodes, idx, n).slots|
            == CountSome(nodes[..n]) - if idx < n && nodes[idx].Some? then 1 else 0
  {
    if n > 0 {
      PackCount(nodes, idx, n - 1);
      assert nodes[..n][..n - 1] == nodes[..n - 1];
    }
  }

  lemma PackValid(count: nat, nodes: seq<Option<Node>>, shift: nat, pre: nat, idx: nat)
    requires Valid(Array(count, nodes), shift, pre) && count <= NODE_SIZE / 4
    requires idx < NODE_SIZE && nodes[idx].Some?
    ensures var p := Pack(nodes, idx, NODE_SIZE);
            Valid(Bitmap(p.bitmap, p.slots), shift, pre) && |p.slots| == count - 1
  {
    Pow2Values();
    PackBits(nodes, idx, NODE_SIZE);
    PackCount(nodes, idx, NODE_SIZE);
    assert nodes[..NODE_SIZE] == nodes;
  }

  /** `without`: the subtrie that is left, or nothing where the C code returns a null pointer. */
  function Without(node: Node, shift: nat, key: Key): (r: Option<Node>)
    requires Valid(node, shift, Pre(key.hash, shift))
    ensures r.Some? ==> Valid(r.value, shift, Pre(key.hash, shift))
    decreases node, 1
  {
    match node
    case Bitmap(_, _) => WithoutBitmap(node, shift, key)
    case Array(_, _) => WithoutArray(node, shift, key)
    case Collision(_, _) => WithoutCollision(node, shift, key)
  }

  function WithoutBitmap(node: Node, shift: nat, key: Key): (r: Option<Node>)
    requires node.Bitmap? && Valid(node, shift, Pre(key.hash, shift))
    ensures r.Some? ==> Valid(r.value, shift, Pre(key.hash, shift))
    decreases node, 0
  {
    var Bitmap(bitmap, slots) := node;
    var bit := BitPos(key.hash, shift);
    SlotFor(bitmap, slots, shift, key);
    if And(bitmap, bit) == 0 then Some(node)
    else
      var idx := Index(bitmap, bit);
      var m, pre := Mask(key.hash, shift), Pre(key.hash, shift);
      RemoveSlotValid(bitmap, slots, shift, pre, m);
      match slots[idx] {
        case Child(child) =>
          var n := Without(child, shift + NODE_LOG_SIZE, key);
          if n == Some(child) then Some(node)
          else if n.Some? then
            SetSlotValid(bitmap, slots, shift, pre, m, Child(n.value));
            Some(Bitmap(bitmap, slots[idx := Child(n.value)]))
          else if bitmap == bit then None
          else Some(Bitmap(Xor(bitmap, bit), Remove(slots, idx)))
        case Leaf(lookupKey, _) =>
          if Equiv(key, lookupKey) then Some(Bitmap(Xor(bitmap, bit), Remove(slots, idx)))
          else Some(node)
      }
  }

  function WithoutArray(node: Node, shift: nat, key: Key): (r: Option<Node>)
    requires node.Array? && Valid(node, shift, Pre(key.hash, shift))
    ensures r.Some? ==> Valid(r.value, shift, Pre(key.hash, shift))
    decreases node, 0
  {
    var Array(count, nodes) := node;
    var idx := Mask(key.hash, shift);
    PreStep(key.hash, shift, Pre(key.hash, shift), idx);
    if nodes[idx].None? then Some(node)
    else
      var n := Without(nodes[idx].value, shift + NODE_LOG_SIZE, key);
      CountSet(nodes, idx, n);
      if n == nodes[idx] then Some(node)
      else if n.Some? then Some(Array(count, nodes[idx := n]))
      else if count <= NODE_SIZE / 4 then
        var p := Pack(nodes, idx, NODE_SIZE);
        PackValid(count, nodes, shift, Pre(key.hash, shift), idx);
        Some(Bitmap(p.bitmap, p.slots))
      else Some(Array(count - 1, nodes[idx := None]))
  }

  function WithoutCollision(node: Node, shift: nat, key: Key): (r: Option<Node>)
    requires node.Collision? && Valid(node, shift, Pre(key.hash, shift))
    ensures r.Some? ==> Valid(r.value, shift, Pre(key.hash, shift))
  {
    var Collision(hash, entries) := node;
    var i := FindIndex(entries, key);
    if i == -1 then Some(node)
    else if |entries| == 1 then None
    else Some(Collision(hash, Remove(entries, i)))
  }
}
