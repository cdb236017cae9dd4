/** The persistent hash map, its transient builder and its node loops (src/Map.c:385-396,
    505-525, 647-653, 757-970), and their agreement with a finite map. */
module HamtMap {
  import opened Bits
  import opened Wrappers
  import opened HamtNodes
  import opened Hamt
  import opened HamtLaws
  import opened HamtSeq

  // ---- Loops of the node operations ----

  method FindIndexLoop(entries: seq<Entry>, key: Key) returns (r: int)
    ensures r == FindIndex(entries, key)
  {
    var i := 0;
    while i < |entries|
      invariant 0 <= i <= |entries|
      invariant forall j | 0 <= j < i :: !Equiv(key, entries[j].key)
      invariant FindIndex(entries, key) == if FindIndex(entries[i..], key) == -1 then -1
                  else i + FindIndex(entries[i..], key)
    {
      if Equiv(key, entries[i].key) { return i; }
      assert entries[i..][1..] == entries[i + 1..];
      i := i + 1;
    }
    return -1;
  }

  /** The growth loop of `assocBitmapIndexed_Node`: `j` walks the slots, `i` the 32 cells. */
  method GrowLoop(node: Node, shift: nat, key: Key, val: Val) returns (r: Node)
    requires node.Bitmap? && Valid(node, shift, Pre(key.hash, shift))
    requires PopCount(node.bitmap) >= NODE_SIZE / 2 && !Bit(node.bitmap, Mask(key.hash, shift))
    ensures r == Grow(node, shift, key, val).node
  {
    hide PopCount, Low, Or, AssocBitmap;
    var bitmap, slots := node.bitmap, node.slots;
    var n := PopCount(bitmap);
    var nodes := new Option<Node>[NODE_SIZE](_ => None);
    var idx := Mask(key.hash, shift);
    ghost var child := Singleton(shift + NODE_LOG_SIZE, key, val);
    SmallBitmap(bitmap, 4); assert Pow2(4) == 16;
    AssocToEmpty(shift + NODE_LOG_SIZE, key, val);
    nodes[idx] := Some(Assoc(EmptyBMINode, shift + NODE_LOG_SIZE, key, val).node);
    var i, j := 0, 0;
    while i < NODE_SIZE
      invariant 0 <= i <= NODE_SIZE && j == Rank(bitmap, i)
      invariant nodes[..i] == Promoted(bitmap, slots, shift, idx, child, i)
      invariant forall x | i <= x < NODE_SIZE :: nodes[x] == if x == idx then Some(child) else None
    {
      SlotOfBit(bitmap, i);
      RankStep(bitmap, i);
      if Bit(bitmap, i) {
        match slots[j] {
          case Child(c) => nodes[i] := Some(c);
          case Leaf(k, v) =>
            AssocToEmpty(shift + NODE_LOG_SIZE, k, v);
            nodes[i] := Some(Assoc(EmptyBMINode, shift + NODE_LOG_SIZE, k, v).node);
        }
        j := j + 1;
      }
      assert nodes[..i + 1] == nodes[..i] + [nodes[i]];
      i := i + 1;
    }
    r := Array(n + 1, nodes[..]);
  }

  lemma AssocToEmpty(shift: nat, key: Key, val: Val)
    requires shift % NODE_LOG_SIZE == 0 && shift <= 30
    ensures Valid(EmptyBMINode, shift, Pre(key.hash, shift))
    ensures Assoc(EmptyBMINode, shift, key, val).node == Singleton(shift, key, val)
  {
    var m := Mask(key.hash, shift);
    EmptyValid(shift, Pre(key.hash, shift));
    SingletonValid(shift, key, val);
    SlotFor(0, [], shift, key);
    BitOfZero(m);
    assert Insert([], 0, Leaf(key, val)) == [Leaf(key, val)];
  }

  /** The two loops of `pack`, before and after the removed cell. */
  method PackLoop(nodes: array<Option<Node>>, idx: nat) returns (p: Packed)
    requires nodes.Length == NODE_SIZE && idx < NODE_SIZE
    ensures p == Pack(nodes[..], idx, NODE_SIZE)
  {
    var slots: seq<Slot>, bitmap := [], 0;
    for i := 0 to idx
      invariant Packed(bitmap, slots) == Pack(nodes[..], idx, i)
    {
      if nodes[i].Some? {
        slots := slots + [Child(nodes[i].value)];
        bitmap := Or(bitmap, Pow2(i));
      }
    }
    for i := idx + 1 to NODE_SIZE
      invariant Packed(bitmap, slots) == Pack(nodes[..], idx, i)
    {
      if nodes[i].Some? {
        slots := slots + [Child(nodes[i].value)];
        bitmap := Or(bitmap, Pow2(i));
      }
    }
    p := Packed(bitmap, slots);
  }

  // ---- The node operations as they run ----

  /** `assoc` of a node, down to the node that changes. */
  method AssocNode(node: Node, shift: nat, key: Key, val: Val) returns (r: AssocResult)
    requires Valid(node, shift, Pre(key.hash, shift))
    ensures r == Assoc(node, shift, key, val)
    decreases 40 - shift, if node.Collision? then 3 else 2
  {
    match node {
      case Bitmap(_, _) => r := AssocBitmapNode(node, shift, key, val);
      case Array(_, _) => r := AssocArrayNode(node, shift, key, val);
      case Collision(hash, entries) =>
        if key.hash != hash {
          WrapValid(node, shift, key);
          r := AssocBitmapNode(Wrap(node, shift), shift, key, val);
          assert r == Assoc(Wrap(node, shift), shift, key, val);
          return;
        }
        var i := FindIndexLoop(entries, key);
        if i == -1 { return AssocResult(Collision(hash, entries + [Entry(key, val)]), true); }
        if entries[i].val == val { return AssocResult(node, false); }
        r := AssocResult(Collision(hash, entries[i := Entry(entries[i].key, val)]), false);
    }
  }

  method AssocBitmapNode(node: Node, shift: nat, key: Key, val: Val) returns (r: AssocResult)
    requires node.Bitmap? && Valid(node, shift, Pre(key.hash, shift))
    ensures r == AssocBitmap(node, shift, key, val)
    decreases 40 - shift, 0
  {
    hide PopCount, Low, Or, Valid, Find, Pre, ValidSlot, AssocSlot;
    ValidShift(node, shift, key);
    SlotFor(node.bitmap, node.slots, shift, key);
    var bit := BitPos(key.hash, shift);
    if And(node.bitmap, bit) != 0 {
      var idx := Index(node.bitmap, bit);
      var s := AssocSlotNode(node.slots[idx], shift + NODE_LOG_SIZE, key, val);
      if s.slot == node.slots[idx] { return AssocResult(node, s.addedLeaf); }
      return AssocResult(SetSlot(node, shift, key, s.slot), s.addedLeaf);
    }
    if PopCount(node.bitmap) < NODE_SIZE / 2 { return AssocResult(InsertPair(node, shift, key, val), true); }
    var grown := GrowLoop(node, shift, key, val);
    return AssocResult(grown, true);
  }

  method AssocSlotNode(slot: Slot, shift: nat, key: Key, val: Val) returns (r: SlotResult)
    requires shift % NODE_LOG_SIZE == 0 && 5 <= shift <= 35
    requires ValidSlot(slot, shift, Pre(key.hash, shift))
    ensures r == AssocSlot(slot, shift, key, val)
    decreases 40 - shift, 4
  {
    if slot.Child? {
      var n := AssocNode(slot.node, shift, key, val);
      r := SlotResult(Child(n.node), n.addedLeaf);
    } else {
      r := AssocSlot(slot, shift, key, val);
    }
  }

  method AssocArrayNode(node: Node, shift: nat, key: Key, val: Val) returns (r: AssocResult)
    requires node.Array? && Valid(node, shift, Pre(key.hash, shift))
    ensures r == AssocArray(node, shift, key, val)
    decreases 40 - shift, 0
  {
    hide PopCount, Low, Or, Valid, Find;
    var Array(count, nodes) := node;
    var idx := Mask(key.hash, shift);
    ValidShift(node, shift, key);
    if nodes[idx].None? {
      return AssocResult(Array(count + 1, nodes[idx := Some(Singleton(shift + NODE_LOG_SIZE, key, val))]), true);
    }
    var n := AssocNode(nodes[idx].value, shift + NODE_LOG_SIZE, key, val);
    if n.node == nodes[idx].value { return AssocResult(node, n.addedLeaf); }
    r := AssocResult(Array(count, nodes[idx := Some(n.node)]), n.addedLeaf);
  }

  /** What the three shapes say of themselves and of the next level. */
  lemma ValidShift(node: Node, shift: nat, key: Key)
    requires Valid(node, shift, Pre(key.hash, shift))
    ensures !node.Collision? ==> shift % NODE_LOG_SIZE == 0 && shift <= 30
    ensures node.Bitmap? ==> |node.slots| == PopCount(node.bitmap)
    ensures node.Array? ==> |node.nodes| == NODE_SIZE && Mask(key.hash, shift) < NODE_SIZE
    ensures node.Array? && node.nodes[Mask(key.hash, shift)].Some? ==>
              Valid(node.nodes[Mask(key.hash, shift)].value, shift + NODE_LOG_SIZE,
                Pre(key.hash, shift + NODE_LOG_SIZE))
  {
    PreStep(key.hash, shift, Pre(key.hash, shift), Mask(key.hash, shift));
  }

  /** `without` of a node. */
  method WithoutNode(node: Node, shift: nat, key: Key) returns (r: Option<Node>)
    requires Valid(node, shift, Pre(key.hash, shift))
    ensures r == Without(node, shift, key)
    decreases node
  {
    hide PopCount, Low, Or, Xor, Valid, Pack;
    match node {
      case Bitmap(bitmap, slots) =>
        var bit := BitPos(key.hash, shift);
        SlotFor(bitmap, slots, shift, key);
        if And(bitmap, bit) == 0 { return Some(node); }
        var idx := Index(bitmap, bit);
        match slots[idx] {
          case Child(child) =>
            var n := WithoutNode(child, shift + NODE_LOG_SIZE, key);
            if n == Some(child) { return Some(node); }
            if n.Some? { return Some(Bitmap(bitmap, slots[idx := Child(n.value)])); }
            r := if bitmap == bit then None else Some(Bitmap(Xor(bitmap, bit), Remove(slots, idx)));
          case Leaf(lookupKey, _) =>
            r := if Equiv(key, lookupKey) then Some(Bitmap(Xor(bitmap, bit), Remove(slots, idx))) else Some(node);
        }
      case Array(count, nodes) =>
        ValidShift(node, shift, key);
        var idx := Mask(key.hash, shift);
        if nodes[idx].None? { return Some(node); }
        var n := WithoutNode(nodes[idx].value, shift + NODE_LOG_SIZE, key);
        if n == nodes[idx] { return Some(node); }
        if n.Some? { return Some(Array(count, nodes[idx := n])); }
        if count > NODE_SIZE / 4 { return Some(Array(count - 1, nodes[idx := None])); }
        var cells := new Option<Node>[NODE_SIZE](i requires 0 <= i < NODE_SIZE => nodes[i]);
        assert cells[..] == nodes;
        var p := PackLoop(cells, idx);
        r := Some(Bitmap(p.bitmap, p.slots));
      case Collision(hash, entries) =>
        var i := FindIndexLoop(entries, key);
        if i == -1 { return Some(node); }
        r := if |entries| == 1 then None else Some(Collision(hash, Remove(entries, i)));
    }
  }

  // ---- The map ----

  /** `nullValue` is present when the null key is. */
  datatype HashMap = HashMap(count: int, root: Option<Node>, nullValue: Option<Val>)

  const EmptyHashMap := HashMap(0, None, None)

  predicate ValidMap(hm: HashMap) {
    hm.root.Some? ==> Valid(hm.root.value, 0, 0)
  }

  function AssocHashMap(hm: HashMap, key: Option<Key>, val: Val): (r: HashMap)
    requires ValidMap(hm)
    ensures ValidMap(r)
  {
    match key
    case None =>
      if hm.nullValue == Some(val) then hm
      else HashMap(if hm.nullValue.Some? then hm.count else hm.count + 1, hm.root, Some(val))
    case Some(k) =>
      EmptyValid(0, 0);
      var r := Assoc(if hm.root.Some? then hm.root.value else EmptyBMINode, 0, k, val);
      if Some(r.node) == hm.root then hm
      else HashMap(hm.count + (if r.addedLeaf then 1 else 0), Some(r.node), hm.nullValue)
  }

  function WithoutHashMap(hm: HashMap, key: Option<Key>): (r: HashMap)
    requires ValidMap(hm)
    ensures ValidMap(r)
  {
    match key
    case None => if hm.nullValue.Some? then HashMap(hm.count - 1, hm.root, None) else hm
    case Some(k) =>
      if hm.root.None? then hm
      else
        var newRoot := Without(hm.root.value, 0, k);
        if newRoot == hm.root then hm else HashMap(hm.count - 1, newRoot, hm.nullValue)
  }

  /** `withoutHashMap` as it runs. */
  method WithoutKey(hm: HashMap, key: Option<Key>) returns (r: HashMap)
    requires ValidMap(hm)
    ensures r == WithoutHashMap(hm, key)
  {
    match key {
      case None => r := if hm.nullValue.Some? then HashMap(hm.count - 1, hm.root, None) else hm;
      case Some(k) =>
        if hm.root.None? { return hm; }
        var newRoot := WithoutNode(hm.root.value, 0, k);
        r := if newRoot == hm.root then hm else HashMap(hm.count - 1, newRoot, hm.nullValue);
    }
  }

  /** A stored key, null allowed, with its value. */
  datatype Stored = Stored(key: Option<Key>, val: Val)

  function EntryAt(hm: HashMap, key: Option<Key>): Option<Stored>
    requires ValidMap(hm)
  {
    match key
    case None => if hm.nullValue.Some? then Some(Stored(None, hm.nullValue.value)) else None
    case Some(k) =>
      if hm.root.None? then None
      else
        var e := Find(hm.root.value, 0, k);
        if e.Some? then Some(Stored(Some(e.value.key), e.value.val)) else None
  }

  // ---- The finite map it stands for ----

  /** What `Equiv` can tell about a key. */
  datatype Id = NullId | KeyId(hash: Word, id: nat)

  function IdOf(key: Option<Key>): Id {
    if key.Some? then KeyId(key.value.hash, key.value.id) else NullId
  }

  type Model = map<Id, Stored>

  function ModelAssoc(m: Model, key: Option<Key>, val: Val): Model {
    m[IdOf(key) := Stored(if IdOf(key) in m then m[IdOf(key)].key else key, val)]
  }

  function ModelWithout(m: Model, key: Option<Key>): Model {
    m - {IdOf(key)}
  }

  predicate ModelKeys(m: Model) {
    forall id | id in m :: IdOf(m[id].key) == id
  }

  /** Every lookup agrees with the finite map and the count is its size. */
  ghost predicate Represents(hm: HashMap, m: Model) {
    && ValidMap(hm)
    && hm.count == |m|
    && ModelKeys(m)
    && forall key: Option<Key> :: EntryAt(hm, key) == if IdOf(key) in m then Some(m[IdOf(key)]) else None
  }

  lemma EmptyRepresents()
    ensures Represents(EmptyHashMap, map[])
  {
  }

  lemma AssocRepresents(hm: HashMap, m: Model, key: Option<Key>, val: Val)
    requires Represents(hm, m)
    ensures Represents(AssocHashMap(hm, key, val), ModelAssoc(m, key, val))
  {
    var hm', m' := AssocHashMap(hm, key, val), ModelAssoc(m, key, val);
    assert EntryAt(hm, key) == if IdOf(key) in m then Some(m[IdOf(key)]) else None;
    if key.Some? {
      EmptyValid(0, 0);
      FindInEmpty(0, key.value);
      FindAssoc(if hm.root.Some? then hm.root.value else EmptyBMINode, 0, key.value, val, key.value);
    }
    forall k: Option<Key> ensures EntryAt(hm', k) == if IdOf(k) in m' then Some(m'[IdOf(k)]) else None {
      assert EntryAt(hm, k) == if IdOf(k) in m then Some(m[IdOf(k)]) else None;
      if key.Some? && k.Some? {
        FindInEmpty(0, k.value);
        FindAssoc(if hm.root.Some? then hm.root.value else EmptyBMINode, 0, key.value, val, k.value);
      }
    }
  }

  lemma WithoutRepresents(hm: HashMap, m: Model, key: Option<Key>)
    requires Represents(hm, m)
    ensures Represents(WithoutHashMap(hm, key), ModelWithout(m, key))
  {
    var hm', m' := WithoutHashMap(hm, key), ModelWithout(m, key);
    assert EntryAt(hm, key) == if IdOf(key) in m then Some(m[IdOf(key)]) else None;
    assert m'.Keys == m.Keys - {IdOf(key)};
    assert |m'| == |m'.Keys| && |m| == |m.Keys|;
    if key.Some? && hm.root.Some? { FindWithout(hm.root.value, 0, key.value, key.value); }
    forall k: Option<Key> ensures EntryAt(hm', k) == if IdOf(k) in m' then Some(m'[IdOf(k)]) else None {
      assert EntryAt(hm, k) == if IdOf(k) in m then Some(m[IdOf(k)]) else None;
      if key.Some? && k.Some? && hm.root.Some? { FindWithout(hm.root.value, 0, key.value, k.value); }
    }
  }

  // ---- Runs ----

  datatype Op = AssocOp(key: Option<Key>, val: Val) | WithoutOp(key: Option<Key>)

  function Run(hm: HashMap, ops: seq<Op>): (r: HashMap)
    requires ValidMap(hm)
    ensures ValidMap(r)
    decreases |ops|
  {
    if ops == [] then hm
    else
      match ops[0]
      case AssocOp(key, val) => Run(AssocHashMap(hm, key, val), ops[1..])
      case WithoutOp(key) => Run(WithoutHashMap(hm, key), ops[1..])
  }

  function ModelRun(m: Model, ops: seq<Op>): Model
    decreases |ops|
  {
    if ops == [] then m
    else
      match ops[0]
      case AssocOp(key, val) => ModelRun(ModelAssoc(m, key, val), ops[1..])
      case WithoutOp(key) => ModelRun(ModelWithout(m, key), ops[1..])
  }

  /** After any run of associations and removals the trie agrees with the finite map that the
      same run builds: every lookup, the count, and the well-formedness of the trie. */
  lemma {:induction false} RunRepresents(hm: HashMap, m: Model, ops: seq<Op>)
    requires Represents(hm, m)
    ensures Represents(Run(hm, ops), ModelRun(m, ops))
    decreases |ops|
  {
    if ops != [] {
      match ops[0]
      case AssocOp(key, val) =>
        AssocRepresents(hm, m, key, val);
        RunRepresents(AssocHashMap(hm, key, val), ModelAssoc(m, key, val), ops[1..]);
      case WithoutOp(key) =>
        WithoutRepresents(hm, m, key);
        RunRepresents(WithoutHashMap(hm, key), ModelWithout(m, key), ops[1..]);
    }
  }

  // ---- The transient builder ----

  class TransientHashMap {
    var edit: bool
    var root: Option<Node>
    var count: int
    var nullValue: Option<Val>

    constructor (hm: HashMap)
      ensures edit && AsMap() == hm
    {
      edit := true;
      root := hm.root;
      count := hm.count;
      nullValue := hm.nullValue;
    }

    function AsMap(): HashMap
      reads this
    {
      HashMap(count, root, nullValue)
    }

    method Assoc(key: Option<Key>, val: Val)
      requires edit && ValidMap(AsMap())
      modifies this
      ensures edit && ValidMap(AsMap())
      ensures AsMap() == AssocHashMap(old(AsMap()), key, val)
    {
      match key {
        case None =>
          if nullValue.None? { count := count + 1; }
          nullValue := Some(val);
        case Some(k) =>
          EmptyValid(0, 0);
          FindInEmpty(0, k);
          var node := if root.None? then EmptyBMINode else root.value;
          var r := AssocNode(node, 0, k, val);
          FindAssoc(node, 0, k, val, k);
          if r.node != node || root.None? { root := Some(r.node); }
          if r.addedLeaf { count := count + 1; }
      }
    }

    method AsPersistent() returns (hm: HashMap)
      requires edit
      modifies this`edit
      ensures hm == old(AsMap()) && !edit
    {
      edit := false;
      hm := HashMap(count, root, nullValue);
    }
  }

  function ModelOf(entries: seq<(Option<Key>, Val)>): Model {
    if entries == [] then map[]
    else
      var n := |entries| - 1;
      ModelAssoc(ModelOf(entries[..n]), entries[n].0, entries[n].1)
  }

  /** Building a map from key/value pairs, later pairs overriding earlier ones. */
  method CreateHashMap(entries: seq<(Option<Key>, Val)>) returns (hm: HashMap)
    ensures Represents(hm, ModelOf(entries))
  {
    var t := new TransientHashMap(EmptyHashMap);
    EmptyRepresents();
    var i := 0;
    while i < |entries|
      invariant 0 <= i <= |entries| && t.edit
      invariant Represents(t.AsMap(), ModelOf(entries[..i]))
      invariant fresh(t)
    {
      AssocRepresents(t.AsMap(), ModelOf(entries[..i]), entries[i].0, entries[i].1);
      t.Assoc(entries[i].0, entries[i].1);
      assert entries[..i + 1][..i] == entries[..i];
      i := i + 1;
    }
    assert entries[..i] == entries;
    hm := t.AsPersistent();
  }

  // ---- Sequences and equivalence ----

  /** The entries in the order `seqHashMap` gives them, the null entry first. */
  function MapEntries(hm: HashMap): seq<Stored> {
    (if hm.nullValue.Some? then [Stored(None, hm.nullValue.value)] else []) +
    (if hm.root.Some? then AsStored(Entries(hm.root.value)) else [])
  }

  function AsStored(entries: seq<Entry>): (s: seq<Stored>)
    ensures |s| == |entries|
    ensures forall i | 0 <= i < |s| :: s[i] == Stored(Some(entries[i].key), entries[i].val)
  {
    seq(|entries|, i requires 0 <= i < |entries| => Stored(Some(entries[i].key), entries[i].val))
  }

  /** The sequence of a map holds every entry of the finite map exactly once and nothing else. */
  lemma MapEntriesExact(hm: HashMap, m: Model)
    requires Represents(hm, m)
    ensures forall s | s in MapEntries(hm) :: IdOf(s.key) in m && m[IdOf(s.key)] == s
    ensures forall id | id in m :: m[id] in MapEntries(hm)
    ensures forall i, j | 0 <= i < j < |MapEntries(hm)| :: IdOf(MapEntries(hm)[i].key) != IdOf(MapEntries(hm)[j].key)
    ensures |MapEntries(hm)| == hm.count
  {
    MapEntriesSound(hm, m);
    MapEntriesComplete(hm, m);
    MapEntriesOnce(hm);
    DistinctCount(MapEntries(hm));
    assert IdSet(MapEntries(hm)) == m.Keys;
  }

  function IdSet(es: seq<Stored>): set<Id> {
    set s | s in es :: IdOf(s.key)
  }

  lemma MapEntriesSound(hm: HashMap, m: Model)
    requires Represents(hm, m)
    ensures forall s | s in MapEntries(hm) :: IdOf(s.key) in m && m[IdOf(s.key)] == s
  {
    if hm.root.Some? { EntriesListed(hm.root.value, 0, 0); }
    forall s | s in MapEntries(hm) ensures IdOf(s.key) in m && m[IdOf(s.key)] == s {
      assert EntryAt(hm, s.key) == if IdOf(s.key) in m then Some(m[IdOf(s.key)]) else None;
      if s.key.Some? {
        assert Entry(s.key.value, s.val) in Entries(hm.root.value);
      }
    }
  }

  lemma MapEntriesComplete(hm: HashMap, m: Model)
    requires Represents(hm, m)
    ensures forall id | id in m :: m[id] in MapEntries(hm)
  {
    forall id | id in m ensures m[id] in MapEntries(hm) {
      var s := m[id];
      assert EntryAt(hm, s.key) == Some(s);
      if s.key.Some? {
        var es := Entries(hm.root.value);
        EntriesComplete(hm.root.value, 0, s.key.value);
        var j :| 0 <= j < |es| && es[j] == Find(hm.root.value, 0, s.key.value).value;
        assert AsStored(es)[j] == s;
      }
    }
  }

  lemma MapEntriesOnce(hm: HashMap)
    requires ValidMap(hm)
    ensures forall i, j | 0 <= i < j < |MapEntries(hm)| :: IdOf(MapEntries(hm)[i].key) != IdOf(MapEntries(hm)[j].key)
  {
    if hm.root.Some? {
      EntriesListed(hm.root.value, 0, 0);
      AsStoredOnce(Entries(hm.root.value));
      var es := AsStored(Entries(hm.root.value));
      if hm.nullValue.None? {
        assert MapEntries(hm) == es;
      } else {
        assert MapEntries(hm)[0].key == None;
        assert MapEntries(hm)[1..] == es;
        forall i, j | 0 <= i < j < |MapEntries(hm)|
          ensures IdOf(MapEntries(hm)[i].key) != IdOf(MapEntries(hm)[j].key)
        {
          assert MapEntries(hm)[j] == es[j - 1];
          if i > 0 { assert MapEntries(hm)[i] == es[i - 1]; }
        }
      }
    }
  }

  lemma AsStoredOnce(es: seq<Entry>)
    requires Distinct(es)
    ensures forall i, j | 0 <= i < j < |es| :: IdOf(AsStored(es)[i].key) != IdOf(AsStored(es)[j].key)
  {
    forall i, j | 0 <= i < j < |es| ensures IdOf(AsStored(es)[i].key) != IdOf(AsStored(es)[j].key) {
      assert !Equiv(es[i].key, es[j].key);
    }
  }

  lemma {:induction false} DistinctCount(es: seq<Stored>)
    requires forall i, j | 0 <= i < j < |es| :: IdOf(es[i].key) != IdOf(es[j].key)
    ensures |IdSet(es)| == |es|
  {
    if es != [] {
      DistinctCount(es[1..]);
      assert IdOf(es[0].key) !in IdSet(es[1..]);
      assert IdSet(es) == {IdOf(es[0].key)} + IdSet(es[1..]) by {
        assert es == [es[0]] + es[1..];
      }
    }
  }

  ghost predicate SameMap(m: Model, mo: Model) {
    m.Keys == mo.Keys && forall id | id in m :: m[id].val == mo[id].val
  }

  /** `EquivHashMap`: equal counts, and every entry of one found with the same value in the other. */
  method EquivHashMap(hm: HashMap, other: HashMap, ghost m: Model, ghost mo: Model) returns (b: bool)
    requires Represents(hm, m) && Represents(other, mo)
    ensures b <==> SameMap(m, mo)
  {
    if other.count != hm.count {
      assert |m| == |m.Keys| && |mo| == |mo.Keys|;
      return false;
    }
    if hm.nullValue.Some? {
      var e := EntryAt(other, None);
      ghost var nil := Stored(None, hm.nullValue.value);
      MapEntriesSound(hm, m);
      assert MapEntries(hm)[0] == nil;
      EntryCompared(other, m, mo, nil);
      if e.None? || e.value.val != hm.nullValue.value { return false; }
    }
    if hm.root.Some? {
      b := RootMatches(hm, other, m, mo);
      if !b { return; }
    }
    AllMatch(hm, m, mo);
    return true;
  }

  /** The comparison loop over the sequence of the trie. */
  method RootMatches(hm: HashMap, other: HashMap, ghost m: Model, ghost mo: Model) returns (b: bool)
    requires Represents(hm, m) && hm.root.Some? && Represents(other, mo)
    ensures b ==> forall s | s in AsStored(Entries(hm.root.value)) :: Matches(mo, s)
    ensures !b ==> !SameMap(m, mo)
  {
    ghost var es := Entries(hm.root.value);
    var s := NodeSeqOf(hm.root.value);
    NodeSeqStarts(hm.root.value);
    ghost var i := 0;
    while s.Some?
      invariant s.Some? ==> ValidSeq(s.value)
      invariant 0 <= i <= |es| && RemainingOpt(s) == es[i..]
      invariant forall j | 0 <= j < i :: Matches(mo, AsStored(es)[j])
      decreases |es| - i
    {
      SeqStep(s.value);
      var e := First(s.value);
      RootEntryIn(hm, m, i);
      var e2 := EntryAt(other, Some(e.key));
      EntryCompared(other, m, mo, AsStored(es)[i]);
      if e2.None? || e2.value.val != e.val { return false; }
      s := Next(s.value);
      i := i + 1;
    }
    return true;
  }

  /** An entry of one map is matched when the other holds its key with the same value. */
  predicate Matches(mo: Model, s: Stored) {
    IdOf(s.key) in mo && mo[IdOf(s.key)].val == s.val
  }

  lemma EntryCompared(other: HashMap, m: Model, mo: Model, s: Stored)
    requires Represents(other, mo) && IdOf(s.key) in m && m[IdOf(s.key)] == s
    ensures EntryAt(other, s.key).Some? && EntryAt(other, s.key).value.val == s.val <==> Matches(mo, s)
    ensures SameMap(m, mo) ==> Matches(mo, s)
  {
  }

  lemma RootEntryIn(hm: HashMap, m: Model, i: nat)
    requires Represents(hm, m) && hm.root.Some? && i < |Entries(hm.root.value)|
    ensures var s := AsStored(Entries(hm.root.value))[i]; IdOf(s.key) in m && m[IdOf(s.key)] == s
  {
    MapEntriesSound(hm, m);
    var d := if hm.nullValue.Some? then 1 else 0;
    assert MapEntries(hm)[i + d] == AsStored(Entries(hm.root.value))[i];
  }

  lemma AllMatch(hm: HashMap, m: Model, mo: Model)
    requires Represents(hm, m) && |m| == |mo|
    requires hm.nullValue.Some? ==> Matches(mo, Stored(None, hm.nullValue.value))
    requires hm.root.Some? ==> forall s | s in AsStored(Entries(hm.root.value)) :: Matches(mo, s)
    ensures SameMap(m, mo)
  {
    MapEntriesComplete(hm, m);
    forall id | id in m ensures id in mo && m[id].val == mo[id].val {
      assert m[id] in MapEntries(hm);
      assert Matches(mo, m[id]);
    }
    assert |m.Keys| == |mo.Keys|;
    SubsetSameSize(m.Keys, mo.Keys);
  }

  lemma SubsetSameSize(a: set<Id>, b: set<Id>)
    requires a <= b && |a| == |b|
    ensures a == b
  {
    assert |b - a| == |b| - |a|;
  }
}
