/** The nodes of the hash array mapped trie and their operations (src/Map.c:21-653).

    Every key carries the value `HashEq` gives it, so the hash argument of the C functions,
    which is always the hash of the key argument, is not passed separately. Two keys are
    `Equiv` when they fall in the same class; equivalent keys hash alike. `rep` tells equivalent
    keys apart, so that the model says which of them is stored. */
module HamtNodes {
  import opened Bits
  import opened Wrappers

  const NODE_LOG_SIZE := 5
  const NODE_SIZE := 32

  type Word = x: nat | x < WORD

  type Val(==, !new)

  datatype Key = Key(hash: Word, id: nat, rep: nat)

  predicate Equiv(x: Key, y: Key) {
    x.hash == y.hash && x.id == y.id
  }

  datatype Entry = Entry(key: Key, val: Val)

  /** One pair of array cells of a bitmap node: a key and its value, or a null key and a subtrie. */
  datatype Slot = Leaf(key: Key, val: Val) | Child(node: Node)

  datatype Node =
    | Bitmap(bitmap: nat, slots: seq<Slot>)
    | Array(count: nat, nodes: seq<Option<Node>>)
    | Collision(hash: Word, entries: seq<Entry>)

  const EmptyBMINode := Bitmap(0, [])

  /** `(hash >> shift) & NODE_BITMASK` */
  function Mask(hash: Word, shift: nat): (m: nat)
    ensures m < NODE_SIZE
  {
    Shr(hash, shift) % NODE_SIZE
  }

  function BitPos(hash: Word, shift: nat): (bit: nat)
    ensures bit > 0
  {
    Pow2(Mask(hash, shift))
  }

  function Index(bitmap: nat, bit: nat): nat
    requires bit > 0
  {
    PopCount(And(bitmap, bit - 1))
  }

  /** The part of the hash used up above `shift`. */
  function Pre(hash: Word, shift: nat): nat {
    Low(hash, shift)
  }

  function ChildPre(pre: nat, i: nat, shift: nat): nat {
    pre + Shl(i, shift)
  }

  function CountSome(nodes: seq<Option<Node>>): nat {
    if nodes == [] then 0 else CountSome(nodes[..|nodes| - 1]) + if nodes[|nodes| - 1].Some? then 1 else 0
  }

  /** Well-formed tries whose keys all have `pre` as the low `shift` bits of their hash. A subtrie
      may be empty: removing the last key of a bitmap node leaves the node in place. A bitmap node may
      have more than sixteen children, but only by in-place insertion into spare cells. */
  predicate Valid(node: Node, shift: nat, pre: nat)
    decreases node
  {
    && shift % NODE_LOG_SIZE == 0
    && pre < Pow2(shift)
    && match node
       case Bitmap(bitmap, slots) =>
         && shift <= 30
         && bitmap < WORD
         && (shift == 30 ==> bitmap < 16)
         && |slots| == PopCount(bitmap)
         && (forall i: nat | i < NODE_SIZE && Bit(bitmap, i) ::
               Rank(bitmap, i) < |slots| &&
               ValidSlot(slots[Rank(bitmap, i)], shift + NODE_LOG_SIZE, ChildPre(pre, i, shift)))
       case Array(count, nodes) =>
         && shift <= 25
         && |nodes| == NODE_SIZE
         && NODE_SIZE / 4 <= count == CountSome(nodes)
         && (forall i: nat | i < NODE_SIZE && nodes[i].Some? ::
               Valid(nodes[i].value, shift + NODE_LOG_SIZE, ChildPre(pre, i, shift)))
       case Collision(hash, entries) =>
         && shift <= 35
         && Pre(hash, shift) == pre
         && |entries| > 0
         && (forall i | 0 <= i < |entries| :: entries[i].key.hash == hash)
         && (forall i, j | 0 <= i < j < |entries| :: !Equiv(entries[i].key, entries[j].key))
  }

  predicate ValidSlot(slot: Slot, shift: nat, pre: nat)
    decreases slot
  {
    match slot
    case Leaf(key, _) => Pre(key.hash, shift) == pre
    case Child(node) => Valid(node, shift, pre)
  }

  // ---- Hash slicing ----

  /** `h` agrees with a prefix extended by the digit `i` exactly when it agrees with the prefix
      and its next five bits are `i`. */
  lemma PreStep(h: Word, shift: nat, pre: nat, i: nat)
    requires pre < Pow2(shift) && i < NODE_SIZE
    ensures ChildPre(pre, i, shift) < Pow2(shift + 5)
    ensures Pre(h, shift + 5) == ChildPre(pre, i, shift) <==> Pre(h, shift) == pre && Mask(h, shift) == i
  {
    LowStep(h, shift, pre, i);
  }

  /** Unequal 32-bit hashes differ at some shift of at most 30: after seven digits nothing is left. */
  lemma Pre35(h: Word)
    ensures Pre(h, 35) == h
  {
    Pow2Values();
    Pow2Monotone(32, 35);
    LowAll(h, 35);
  }

  lemma MaskAt30(h: Word)
    ensures Mask(h, 30) < 4
  {
    Pow2Values();
    ShrBound(h, 30, 2);
    assert Pow2(2) == 4;
  }

  // ---- Bitmap slots ----

  lemma IndexIsRank(bitmap: nat, hash: Word, shift: nat)
    ensures Index(bitmap, BitPos(hash, shift)) == Rank(bitmap, Mask(hash, shift))
  {
    PopCountBelow(bitmap, Mask(hash, shift));
  }

  /** A set bit has a slot of its own. */
  lemma SlotOfBit(bitmap: nat, i: nat)
    requires bitmap < WORD && i < 32
    ensures Rank(bitmap, i) + (if Bit(bitmap, i) then 1 else 0) <= PopCount(bitmap)
  {
    Pow2Values();
    RankAll(bitmap, 32);
    RankMonotone(bitmap, i, 32);
  }

  lemma SlotsDistinct(bitmap: nat, i: nat, j: nat)
    requires i != j && Bit(bitmap, i) && Bit(bitmap, j)
    ensures Rank(bitmap, i) != Rank(bitmap, j)
  {
    if i < j { RankMonotone(bitmap, i, j); } else { RankMonotone(bitmap, j, i); }
  }

  lemma WordBits(bitmap: nat, m: nat)
    requires bitmap < WORD && m < 32
    ensures Pow2(m) < WORD && Or(bitmap, Pow2(m)) < WORD && Xor(bitmap, Pow2(m)) < WORD
    ensures bitmap < 16 && m < 4 ==> Or(bitmap, Pow2(m)) < 16
    ensures bitmap < 16 && m < 4 ==> Xor(bitmap, Pow2(m)) < 16
  {
    Pow2Values();
    Pow2Monotone(m, 32);
    OrBound(bitmap, Pow2(m), 32);
    XorBound(bitmap, Pow2(m), 32);
    if bitmap < 16 && m < 4 {
      Pow2Monotone(m, 4);
      assert Pow2(4) == 16;
      OrBound(bitmap, Pow2(m), 4);
      XorBound(bitmap, Pow2(m), 4);
    }
  }

  /** Replacing the slot of a set bit. */
  lemma SetSlotValid(bitmap: nat, slots: seq<Slot>, shift: nat, pre: nat, m: nat, slot: Slot)
    requires Valid(Bitmap(bitmap, slots), shift, pre)
    requires m < NODE_SIZE && Bit(bitmap, m)
    requires ValidSlot(slot, shift + NODE_LOG_SIZE, ChildPre(pre, m, shift))
    ensures Valid(Bitmap(bitmap, slots[Rank(bitmap, m) := slot]), shift, pre)
  {
    var slots' := slots[Rank(bitmap, m) := slot];
    forall i: nat | i < NODE_SIZE && Bit(bitmap, i)
      ensures ValidSlot(slots'[Rank(bitmap, i)], shift + NODE_LOG_SIZE, ChildPre(pre, i, shift))
    {
      if i != m { SlotsDistinct(bitmap, i, m); }
    }
  }

  function Insert<T>(s: seq<T>, i: nat, x: T): seq<T>
    requires i <= |s|
  {
    s[..i] + [x] + s[i..]
  }

  function Remove<T>(s: seq<T>, i: nat): seq<T>
    requires i < |s|
  {
    s[..i] + s[i + 1..]
  }

  /** Adding a slot for a clear bit. */
  lemma InsertSlotValid(bitmap: nat, slots: seq<Slot>, shift: nat, pre: nat, m: nat, slot: Slot)
    requires Valid(Bitmap(bitmap, slots), shift, pre)
    requires m < NODE_SIZE && !Bit(bitmap, m)
    requires shift == 30 ==> m < 4
    requires ValidSlot(slot, shift + NODE_LOG_SIZE, ChildPre(pre, m, shift))
    ensures Rank(bitmap, m) <= |slots|
    ensures Valid(Bitmap(Or(bitmap, Pow2(m)), Insert(slots, Rank(bitmap, m), slot)), shift, pre)
  {
    hide PopCount, Rank, Bit, Or, Pow2, Low;
    var b := Or(bitmap, Pow2(m));
    SlotOfBit(bitmap, m);
    var slots' := Insert(slots, Rank(bitmap, m), slot);
    WordBits(bitmap, m);
    Pow2Values();
    RankAfterOr(bitmap, m, 32);
    RankAll(bitmap, 32);
    RankAll(b, 32);
    forall i: nat | i < NODE_SIZE && Bit(b, i)
      ensures Rank(b, i) < |slots'|
      ensures ValidSlot(slots'[Rank(b, i)], shift + NODE_LOG_SIZE, ChildPre(pre, i, shift))
    {
      OrSetsBit(bitmap, m, i);
      RankAfterOr(bitmap, m, i);
      if i < m { RankMonotone(bitmap, i, m); } else if m < i { RankMonotone(bitmap, m, i); }
    }
  }

  /** Where the slot of bit `i` is found once the slot of bit `m` is gone. */
  lemma RankAfterRemove(bitmap: nat, m: nat, i: nat)
    requires bitmap < WORD && m < 32 && i < 32 && Bit(bitmap, m) && Bit(bitmap, i) && i != m
    ensures i < m ==> Rank(Xor(bitmap, Pow2(m)), i) == Rank(bitmap, i) < Rank(bitmap, m)
    ensures i > m ==> Rank(Xor(bitmap, Pow2(m)), i) == Rank(bitmap, i) - 1 >= Rank(bitmap, m)
    ensures Rank(bitmap, i) < PopCount(bitmap)
  {
    RankAfterXor(bitmap, m, i);
    SlotOfBit(bitmap, i);
    if i < m { RankMonotone(bitmap, i, m); } else { RankMonotone(bitmap, m, i); }
  }

  /** Dropping the slot of a set bit. */
  lemma RemoveSlotValid(bitmap: nat, slots: seq<Slot>, shift: nat, pre: nat, m: nat)
    requires Valid(Bitmap(bitmap, slots), shift, pre)
    requires m < NODE_SIZE && Bit(bitmap, m)
    ensures Rank(bitmap, m) < |slots|
    ensures Valid(Bitmap(Xor(bitmap, Pow2(m)), Remove(slots, Rank(bitmap, m))), shift, pre)
  {
    var b := Xor(bitmap, Pow2(m));
    var slots' := Remove(slots, Rank(bitmap, m));
    RemoveSlotCount(bitmap, m, shift);
    forall i: nat | i < NODE_SIZE && Bit(b, i)
      ensures Rank(b, i) < |slots'|
      ensures ValidSlot(slots'[Rank(b, i)], shift + NODE_LOG_SIZE, ChildPre(pre, i, shift))
    {
      XorClearsBit(bitmap, m, i);
      RankAfterRemove(bitmap, m, i);
      assert slots'[Rank(b, i)] == slots[Rank(bitmap, i)];
    }
  }

  lemma RemoveSlotCount(bitmap: nat, m: nat, shift: nat)
    requires bitmap < WORD && m < 32 && Bit(bitmap, m)
    ensures Xor(bitmap, Pow2(m)) < WORD && PopCount(Xor(bitmap, Pow2(m))) == PopCount(bitmap) - 1
    ensures bitmap < 16 ==> Xor(bitmap, Pow2(m)) < 16
  {
    WordBits(bitmap, m);
    assert Pow2(4) == 16;
    if bitmap < 16 { BitBound(bitmap, m, 4); }
    Pow2Values();
    RankAfterXor(bitmap, m, 32);
    RankAll(bitmap, 32);
    RankAll(Xor(bitmap, Pow2(m)), 32);
  }
}
