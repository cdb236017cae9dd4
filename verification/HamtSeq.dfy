/** Sequences over a trie (src/Map.c:655-755): `first` and `next` visit every entry once. */
module HamtSeq {
  import opened Bits
  import opened Wrappers
  import opened HamtNodes
  import opened Hamt
  import opened HamtLaws

  // ---- The entries of a trie, in storage order ----

  function Entries(node: Node): seq<Entry>
    decreases node, 1
  {
    match node
    case Bitmap(_, slots) => SlotEntriesFrom(slots, 0)
    case Array(_, nodes) => NodeEntriesFrom(nodes, 0)
    case Collision(_, entries) => entries
  }

  function SlotEntries(slot: Slot): seq<Entry>
    decreases slot, 0
  {
    match slot
    case Leaf(key, val) => [Entry(key, val)]
    case Child(node) => Entries(node)
  }

  function CellEntries(cell: Option<Node>): seq<Entry>
    decreases cell, 0
  {
    if cell.Some? then Entries(cell.value) else []
  }

  function SlotEntriesFrom(slots: seq<Slot>, i: nat): seq<Entry>
    requires i <= |slots|
    decreases slots, |slots| - i
  {
    if i == |slots| then [] else SlotEntries(slots[i]) + SlotEntriesFrom(slots, i + 1)
  }

  function NodeEntriesFrom(nodes: seq<Option<Node>>, i: nat): seq<Entry>
    requires i <= |nodes|
    decreases nodes, |nodes| - i
  {
    if i == |nodes| then []
    else CellEntries(nodes[i]) + NodeEntriesFrom(nodes, i + 1)
  }

  predicate Distinct(entries: seq<Entry>) {
    forall i, j | 0 <= i < j < |entries| :: !Equiv(entries[i].key, entries[j].key)
  }

  /** Every listed key hashes into the trie's prefix, finds exactly the listed entry, and is listed once. */
  predicate Lists(entries: seq<Entry>, node: Node, shift: nat, pre: nat)
    requires Valid(node, shift, pre)
  {
    && (forall e | e in entries :: Pre(e.key.hash, shift) == pre && Find(node, shift, e.key) == Some(e))
    && Distinct(entries)
  }

  /** The entries of the slots of bits `i` and above. */
  function BitEntriesFrom(bitmap: nat, slots: seq<Slot>, i: nat): seq<Entry>
    requires bitmap < WORD && |slots| == PopCount(bitmap) && i <= NODE_SIZE
    decreases NODE_SIZE - i
  {
    if i == NODE_SIZE then []
    else
      SlotOfBit(bitmap, i);
      (if Bit(bitmap, i) then SlotEntries(slots[Rank(bitmap, i)]) else []) + BitEntriesFrom(bitmap, slots, i + 1)
  }

  lemma {:induction false} SlotsByBits(bitmap: nat, slots: seq<Slot>, i: nat)
    requires bitmap < WORD && |slots| == PopCount(bitmap) && i <= NODE_SIZE
    ensures Rank(bitmap, i) <= |slots|
    ensures SlotEntriesFrom(slots, Rank(bitmap, i)) == BitEntriesFrom(bitmap, slots, i)
    decreases NODE_SIZE - i
  {
    if i == NODE_SIZE {
      Pow2Values();
      RankAll(bitmap, 32);
    } else {
      SlotsByBits(bitmap, slots, i + 1);
      var r, rest := Rank(bitmap, i), BitEntriesFrom(bitmap, slots, i + 1);
      RankStep(bitmap, i);
      SlotOfBit(bitmap, i);
      if Bit(bitmap, i) {
        assert SlotEntriesFrom(slots, r) == SlotEntries(slots[r]) + rest;
      } else {
        assert BitEntriesFrom(bitmap, slots, i) == [] + rest == rest;
      }
    }
  }

  /** Joining the entries of one digit with those of later digits. */
  lemma ListsConcat(es: seq<Entry>, rest: seq<Entry>, node: Node, shift: nat, pre: nat, i: nat)
    requires Valid(node, shift, pre) && Lists(es, node, shift, pre) && Lists(rest, node, shift, pre)
    requires forall e | e in es :: Mask(e.key.hash, shift) == i
    requires forall e | e in rest :: Mask(e.key.hash, shift) > i
    ensures Lists(es + rest, node, shift, pre)
    ensures forall e | e in es + rest :: Mask(e.key.hash, shift) >= i
  {
    var all := es + rest;
    forall x, y | 0 <= x < y < |all| ensures !Equiv(all[x].key, all[y].key) {
      if x < |es| <= y {
        assert es[x] in es && rest[y - |es|] in rest;
      } else if x >= |es| {
        assert all[x] == rest[x - |es|];
      }
    }
  }

  lemma {:induction false} EntriesListed(node: Node, shift: nat, pre: nat)
    requires Valid(node, shift, pre)
    ensures Lists(Entries(node), node, shift, pre)
    decreases node, 1
  {
    match node
    case Bitmap(bitmap, slots) =>
      SlotsByBits(bitmap, slots, 0);
      BitEntriesListed(node, shift, pre, 0);
    case Array(_, nodes) =>
      NodeEntriesListed(node, shift, pre, 0);
    case Collision(_, entries) =>
      forall e | e in entries ensures Find(node, shift, e.key) == Some(e) {
        var j :| 0 <= j < |entries| && entries[j] == e;
        FindIndexUnique(entries, e.key);
      }
  }

  lemma {:induction false} SlotEntriesListed(slot: Slot, shift: nat, pre: nat)
    requires shift % NODE_LOG_SIZE == 0 && ValidSlot(slot, shift, pre)
    ensures Distinct(SlotEntries(slot))
    ensures forall e | e in SlotEntries(slot) :: Pre(e.key.hash, shift) == pre &&
              FindSlot(slot, shift, e.key) == Some(e)
    decreases slot, 0
  {
    if slot.Child? { EntriesListed(slot.node, shift, pre); }
  }

  lemma {:induction false} BitEntriesListed(node: Node, shift: nat, pre: nat, i: nat)
    requires node.Bitmap? && Valid(node, shift, pre) && i <= NODE_SIZE
    ensures var es := BitEntriesFrom(node.bitmap, node.slots, i);
            && Lists(es, node, shift, pre)
            && forall e | e in es :: Mask(e.key.hash, shift) >= i
    decreases node, 0, NODE_SIZE - i + 1
  {
    hide PopCount, Low, Pow2, Or;
    if i < NODE_SIZE {
      var Bitmap(bitmap, slots) := node;
      SlotOfBit(bitmap, i);
      BitEntriesListed(node, shift, pre, i + 1);
      if Bit(bitmap, i) {
        BitSlotListed(node, shift, pre, i);
        ListsConcat(SlotEntries(slots[Rank(bitmap, i)]), BitEntriesFrom(bitmap, slots, i + 1), node, shift, pre, i);
      } else {
        assert BitEntriesFrom(bitmap, slots, i) == BitEntriesFrom(bitmap, slots, i + 1);
      }
    }
  }

  lemma {:induction false} BitSlotListed(node: Node, shift: nat, pre: nat, i: nat)
    requires node.Bitmap? && Valid(node, shift, pre) && i < NODE_SIZE && Bit(node.bitmap, i)
    ensures Rank(node.bitmap, i) < |node.slots|
    ensures var es := SlotEntries(node.slots[Rank(node.bitmap, i)]);
            && Lists(es, node, shift, pre)
            && forall e | e in es :: Mask(e.key.hash, shift) == i
    decreases node, 0, 0
  {
    var Bitmap(bitmap, slots) := node;
    var slot := slots[Rank(bitmap, i)];
    SlotEntriesListed(slot, shift + NODE_LOG_SIZE, ChildPre(pre, i, shift));
    forall e | e in SlotEntries(slot)
      ensures Pre(e.key.hash, shift) == pre && Mask(e.key.hash, shift) == i && Find(node, shift, e.key) == Some(e)
    {
      PreStep(e.key.hash, shift, pre, i);
      FindInSlot(bitmap, slots, shift, e.key);
    }
  }

  lemma {:induction false} NodeEntriesListed(node: Node, shift: nat, pre: nat, i: nat)
    requires node.Array? && Valid(node, shift, pre) && i <= NODE_SIZE
    ensures var es := NodeEntriesFrom(node.nodes, i);
            && Lists(es, node, shift, pre)
            && forall e | e in es :: Mask(e.key.hash, shift) >= i
    decreases node, 0, NODE_SIZE - i
  {
    if i < NODE_SIZE {
      NodeEntriesListed(node, shift, pre, i + 1);
      var rest := NodeEntriesFrom(node.nodes, i + 1);
      if node.nodes[i].Some? {
        var child := node.nodes[i].value;
        EntriesListed(child, shift + NODE_LOG_SIZE, ChildPre(pre, i, shift));
        forall e | e in Entries(child)
          ensures Pre(e.key.hash, shift) == pre && Mask(e.key.hash, shift) == i && Find(node, shift, e.key) == Some(e)
        {
          PreStep(e.key.hash, shift, pre, i);
          FindInArray(node.count, node.nodes, shift, e.key);
        }
        ListsConcat(Entries(child), rest, node, shift, pre, i);
      } else {
        assert NodeEntriesFrom(node.nodes, i) == rest;
      }
    }
  }

  /** Nothing a lookup finds is missing from the list. */
  lemma {:induction false} EntriesComplete(node: Node, shift: nat, k: Key)
    requires Valid(node, shift, Pre(k.hash, shift))
    ensures Find(node, shift, k).Some? ==> Find(node, shift, k).value in Entries(node)
    decreases node
  {
    match node
    case Bitmap(bitmap, slots) =>
      FindInSlot(bitmap, slots, shift, k);
      if Bit(bitmap, Mask(k.hash, shift)) {
        var r := Rank(bitmap, Mask(k.hash, shift));
        if slots[r].Child? { EntriesComplete(slots[r].node, shift + NODE_LOG_SIZE, k); }
        SlotEntriesIn(slots, 0, r);
      }
    case Array(count, nodes) =>
      FindInArray(count, nodes, shift, k);
      var m := Mask(k.hash, shift);
      if nodes[m].Some? {
        EntriesComplete(nodes[m].value, shift + NODE_LOG_SIZE, k);
        NodeEntriesIn(nodes, 0, m);
      }
    case Collision(_, _) =>
  }

  lemma {:induction false} SlotEntriesIn(slots: seq<Slot>, i: nat, r: nat)
    requires i <= r < |slots|
    ensures forall e | e in SlotEntries(slots[r]) :: e in SlotEntriesFrom(slots, i)
    decreases r - i
  {
    if i < r { SlotEntriesIn(slots, i + 1, r); }
  }

  lemma {:induction false} NodeEntriesIn(nodes: seq<Option<Node>>, i: nat, r: nat)
    requires i <= r < |nodes| && nodes[r].Some?
    ensures forall e | e in Entries(nodes[r].value) :: e in NodeEntriesFrom(nodes, i)
    decreases r - i
  {
    if i < r { NodeEntriesIn(nodes, i + 1, r); }
  }

  // ---- NodeSeq and ArrayNodeSeq ----

  /** A position in a trie. With a nested sequence `s`, index `i` is where to go on after `s`;
      without one, slot `i` is the current entry. */
  datatype NSeq =
    | NodeSeq(slots: seq<Slot>, i: nat, s: Option<NSeq>)
    | ArrayNodeSeq(nodes: seq<Option<Node>>, i: nat, s: Option<NSeq>)

  predicate ValidSeq(q: NSeq) {
    match q
    case NodeSeq(slots, i, s) => i <= |slots| && if s.Some? then ValidSeq(s.value) else i < |slots| && slots[i].Leaf?
    case ArrayNodeSeq(nodes, i, s) => i <= |nodes| && s.Some? && ValidSeq(s.value)
  }

  /** What is still to be visited, the current entry included. */
  function Remaining(q: NSeq): seq<Entry>
    requires ValidSeq(q)
  {
    match q
    case NodeSeq(slots, i, s) =>
      if s.Some? then Remaining(s.value) + SlotEntriesFrom(slots, i) else SlotEntriesFrom(slots, i)
    case ArrayNodeSeq(nodes, i, s) => Remaining(s.value) + NodeEntriesFrom(nodes, i)
  }

  function RemainingOpt(q: Option<NSeq>): seq<Entry>
    requires q.Some? ==> ValidSeq(q.value)
  {
    if q.Some? then Remaining(q.value) else []
  }

  function CollisionSlots(entries: seq<Entry>): (slots: seq<Slot>)
    ensures |slots| == |entries|
    ensures forall i | 0 <= i < |entries| :: slots[i] == Leaf(entries[i].key, entries[i].val)
  {
    seq(|entries|, i requires 0 <= i < |entries| => Leaf(entries[i].key, entries[i].val))
  }

  /** `nodeSeq` of the three node kinds. */
  function NodeSeqOf(node: Node): (q: Option<NSeq>)
    ensures q.Some? ==> ValidSeq(q.value)
    decreases node, 1
  {
    match node
    case Bitmap(_, slots) => ScanSlots(slots, 0)
    case Array(_, nodes) => ScanNodes(nodes, 0)
    case Collision(_, entries) =>
      if entries == [] then None else Some(NodeSeq(CollisionSlots(entries), 0, None))
  }

  function CreateNodeSeq(slots: seq<Slot>, i: nat, s: Option<NSeq>): (q: Option<NSeq>)
    requires i <= |slots| && (s.Some? ==> ValidSeq(s.value))
    ensures q.Some? ==> ValidSeq(q.value)
  {
    if s.Some? then Some(NodeSeq(slots, i, s)) else ScanSlots(slots, i)
  }

  /** The search loop of `CreateNodeSeq`. */
  function ScanSlots(slots: seq<Slot>, j: nat): (q: Option<NSeq>)
    requires j <= |slots|
    ensures q.Some? ==> ValidSeq(q.value)
    decreases slots, 0, |slots| - j
  {
    if j == |slots| then None
    else
      if slots[j].Leaf? then Some(NodeSeq(slots, j, None))
      else
        var s := ChildSeq(slots[j]);
        if s.Some? then Some(NodeSeq(slots, j + 1, s)) else ScanSlots(slots, j + 1)
  }

  function ChildSeq(slot: Slot): (q: Option<NSeq>)
    requires slot.Child?
    ensures q.Some? ==> ValidSeq(q.value)
    decreases slot, 0
  {
    NodeSeqOf(slot.node)
  }

  function CellSeq(cell: Option<Node>): (q: Option<NSeq>)
    ensures q.Some? ==> ValidSeq(q.value)
    decreases cell, 0
  {
    if cell.Some? then NodeSeqOf(cell.value) else None
  }

  function CreateArrayNodeSeq(nodes: seq<Option<Node>>, i: nat, s: Option<NSeq>): (q: Option<NSeq>)
    requires i <= |nodes| && (s.Some? ==> ValidSeq(s.value))
    ensures q.Some? ==> ValidSeq(q.value)
  {
    if s.Some? then Some(ArrayNodeSeq(nodes, i, s)) else ScanNodes(nodes, i)
  }

  function ScanNodes(nodes: seq<Option<Node>>, j: nat): (q: Option<NSeq>)
    requires j <= |nodes|
    ensures q.Some? ==> ValidSeq(q.value)
    decreases nodes, 0, |nodes| - j
  {
    if j == |nodes| then None
    else
      var s := CellSeq(nodes[j]);
      if s.Some? then Some(ArrayNodeSeq(nodes, j + 1, s)) else ScanNodes(nodes, j + 1)
  }

  function First(q: NSeq): Entry
    requires ValidSeq(q)
  {
    match q
    case NodeSeq(slots, i, s) => if s.Some? then First(s.value) else Entry(slots[i].key, slots[i].val)
    case ArrayNodeSeq(_, _, s) => First(s.value)
  }

  function Next(q: NSeq): (r: Option<NSeq>)
    requires ValidSeq(q)
    ensures r.Some? ==> ValidSeq(r.value)
  {
    match q
    case NodeSeq(slots, i, s) =>
      if s.Some? then CreateNodeSeq(slots, i, Next(s.value)) else CreateNodeSeq(slots, i + 1, None)
    case ArrayNodeSeq(nodes, i, s) => CreateArrayNodeSeq(nodes, i, Next(s.value))
  }

  /** A fresh sequence has all entries of the node ahead of it, and is absent only when there are none. */
  lemma {:induction false} NodeSeqStarts(node: Node)
    ensures RemainingOpt(NodeSeqOf(node)) == Entries(node)
    ensures NodeSeqOf(node).None? <==> Entries(node) == []
    decreases node, 1
  {
    match node
    case Bitmap(_, slots) => ScanSlotsFinds(slots, 0);
    case Array(_, nodes) => ScanNodesFinds(nodes, 0);
    case Collision(_, entries) => CollisionEntries(entries, CollisionSlots(entries), 0);
  }

  lemma {:induction false} CollisionEntries(entries: seq<Entry>, slots: seq<Slot>, i: nat)
    requires i <= |entries| && slots == CollisionSlots(entries)
    ensures SlotEntriesFrom(slots, i) == entries[i..]
    decreases |entries| - i
  {
    if i < |entries| { CollisionEntries(entries, slots, i + 1); }
  }

  lemma {:induction false} ScanSlotsFinds(slots: seq<Slot>, j: nat)
    requires j <= |slots|
    ensures RemainingOpt(ScanSlots(slots, j)) == SlotEntriesFrom(slots, j)
    ensures ScanSlots(slots, j).None? <==> SlotEntriesFrom(slots, j) == []
    decreases slots, 0, |slots| - j
  {
    if j < |slots| && slots[j].Child? {
      ChildSeqStarts(slots[j]);
      ScanSlotsFinds(slots, j + 1);
    }
  }

  lemma {:induction false} ChildSeqStarts(slot: Slot)
    requires slot.Child?
    ensures RemainingOpt(ChildSeq(slot)) == SlotEntries(slot)
    ensures ChildSeq(slot).None? <==> SlotEntries(slot) == []
    decreases slot, 0
  {
    NodeSeqStarts(slot.node);
  }

  lemma {:induction false} CellSeqStarts(cell: Option<Node>)
    ensures RemainingOpt(CellSeq(cell)) == CellEntries(cell)
    ensures CellSeq(cell).None? <==> CellEntries(cell) == []
    decreases cell, 0
  {
    if cell.Some? { NodeSeqStarts(cell.value); }
  }

  lemma {:induction false} ScanNodesFinds(nodes: seq<Option<Node>>, j: nat)
    requires j <= |nodes|
    ensures RemainingOpt(ScanNodes(nodes, j)) == NodeEntriesFrom(nodes, j)
    ensures ScanNodes(nodes, j).None? <==> NodeEntriesFrom(nodes, j) == []
    decreases nodes, 0, |nodes| - j
  {
    if j < |nodes| {
      ScanNodesFinds(nodes, j + 1);
      CellSeqStarts(nodes[j]);
    }
  }

  /** One step: `first` is the head of what remains and `next` moves past exactly it. */
  lemma {:induction false} SeqStep(q: NSeq)
    requires ValidSeq(q)
    ensures |Remaining(q)| > 0 && First(q) == Remaining(q)[0]
    ensures RemainingOpt(Next(q)) == Remaining(q)[1..]
    ensures Next(q).None? <==> |Remaining(q)| == 1
    decreases q
  {
    match q
    case NodeSeq(slots, i, s) =>
      if s.Some? {
        SeqStep(s.value);
        if Next(s.value).None? { ScanSlotsFinds(slots, i); }
      } else {
        assert SlotEntriesFrom(slots, i) == [Entry(slots[i].key, slots[i].val)] + SlotEntriesFrom(slots, i + 1);
        ScanSlotsFinds(slots, i + 1);
      }
    case ArrayNodeSeq(nodes, i, s) =>
      SeqStep(s.value);
      if Next(s.value).None? { ScanNodesFinds(nodes, i); }
  }
}
