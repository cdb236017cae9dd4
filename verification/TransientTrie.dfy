/** The trie of src/Map.cpp on the heap and its in-place operations (src/Map.cpp:690-812, 881-1247).
    A node carries the token of the transient that made it; only that transient may change it. Tokens
    are objects, made afresh for every transient, so that no node made before carries one. */
module TransientTrie {
  import opened Bits
  import opened Wrappers
  import opened HamtNodes
  import opened Hamt
  import opened HamtLaws
  import opened HamtEdits

  class Token {
    constructor () {
    }
  }

  /** The token of nodes that no transient owns. */
  const NOEDIT: Token? := null

  datatype Kind = BitmapKind | ArrayKind | CollisionKind

  /** Two adjacent array cells of a bitmap or collision node, or one cell of an array node. */
  datatype Cell = Empty | KeyVal(key: Key, val: Val) | Sub(node: HeapNode)

  class HeapNode {
    const token: Token?
    const kind: Kind
    const hash: Word
    var bitmap: nat
    var count: nat
    var cells: seq<Cell>
    ghost var model: Node
    ghost var Repr: set<HeapNode>

    constructor (token: Token?, kind: Kind, hash: Word, bitmap: nat, count: nat, cells: seq<Cell>, ghost model: Node,
                 ghost below: set<HeapNode>)
      ensures this.token == token && this.kind == kind && this.hash == hash && this.bitmap == bitmap
      ensures this.count == count && this.cells == cells && this.model == model && this.Repr == below + {this}
    {
      this.token, this.kind, this.hash, this.bitmap, this.count, this.cells := token, kind, hash, bitmap, count, cells;
      this.model := model;
      Repr := below + {this};
    }

    /** The subtries in the cells but `skip` are well shaped and share no nodes. */
    ghost predicate KidsOk(skip: int)
      reads this, Repr
      decreases Repr, 0
    {
      && this in Repr
      && (forall i | 0 <= i < |cells| && i != skip && cells[i].Sub? ::
            && cells[i].node in Repr && cells[i].node.Repr <= Repr && this !in cells[i].node.Repr
            && cells[i].node.Shaped())
      && (forall i, j | 0 <= i < j < |cells| && i != skip && j != skip && cells[i].Sub? && cells[j].Sub? ::
            cells[i].node.Repr !! cells[j].node.Repr)
    }

    /** The cells spell out the model. */
    ghost predicate Shaped()
      reads this, Repr
      decreases Repr, 1
    {
      KidsOk(-1) && CellsAre(kind, hash, bitmap, count, cells, model)
    }

    ghost predicate Valid(shift: nat, pre: nat)
      reads this, Repr
    {
      Shaped() && HamtNodes.Valid(model, shift, pre)
    }

    /** No node owned by `token` hangs below one that is not. */
    ghost predicate Closed(token: Token)
      reads this, Repr
    {
      forall m, x | m in Repr && m.token != token && x in m.Repr :: x.token != token
    }
  }

  ghost predicate CellIs(cell: Cell, slot: Slot)
    reads if cell.Sub? then {cell.node} else {}
  {
    match cell
    case Empty => false
    case KeyVal(key, val) => slot == Leaf(key, val)
    case Sub(node) => slot == Child(node.model)
  }

  /** What the fields of a node say about its value. */
  ghost predicate CellsAre(kind: Kind, hash: Word, bitmap: nat, count: nat, cells: seq<Cell>, model: Node)
    reads set i | 0 <= i < |cells| && cells[i].Sub? :: cells[i].node
  {
    match kind
    case BitmapKind =>
      && model.Bitmap? && model.bitmap == bitmap && |model.slots| == PopCount(bitmap) <= |cells|
      && (forall i | 0 <= i < PopCount(bitmap) :: CellIs(cells[i], model.slots[i]))
      && (forall i | PopCount(bitmap) <= i < |cells| :: cells[i].Empty?)
    case ArrayKind =>
      && model.Array? && model.count == count && |cells| == NODE_SIZE == |model.nodes|
      && (forall i | 0 <= i < NODE_SIZE ::
            !cells[i].KeyVal? && model.nodes[i] == if cells[i].Sub? then Some(cells[i].node.model) else None)
    case CollisionKind =>
      && model.Collision? && model.hash == hash && |model.entries| == count <= |cells|
      && (forall i | 0 <= i < count :: cells[i] == KeyVal(model.entries[i].key, model.entries[i].val))
      && (forall i | count <= i < |cells| :: cells[i].Empty?)
  }

  function Spare(n: nat): (s: seq<Cell>)
    ensures |s| == n && forall i | 0 <= i < n :: s[i].Empty?
  {
    seq(n, _ => Empty)
  }

  /** What a well-shaped node is made of. */
  lemma Parts(node: HeapNode, skip: int)
    requires node.Shaped()
    ensures node in node.Repr && node.KidsOk(skip)
    ensures CellsAre(node.kind, node.hash, node.bitmap, node.count, node.cells, node.model)
  {
    assert node.KidsOk(-1);
  }

  /** A subtrie of a well-shaped node. */
  lemma KidAt(node: HeapNode, i: nat, token: Token)
    requires node.KidsOk(-1) && node.Closed(token) && i < |node.cells| && node.cells[i].Sub?
    ensures var kid := node.cells[i].node;
            kid.Shaped() && kid in node.Repr && kid.Repr <= node.Repr && node !in kid.Repr && kid.Closed(token)
  {
  }

  // ---- Editing one node ----

  /** The subtries in `cells` are well shaped, lie within `below` and share no nodes. */
  ghost predicate KidsIn(cells: seq<Cell>, below: set<HeapNode>)
    reads below
  {
    && (forall i | 0 <= i < |cells| && cells[i].Sub? ::
          cells[i].node in below && cells[i].node.Repr <= below && cells[i].node.Shaped())
    && (forall i, j | 0 <= i < j < |cells| && cells[i].Sub? && cells[j].Sub? ::
          cells[i].node.Repr !! cells[j].node.Repr)
  }

  /** The node takes new cells and a new value; `below` are the nodes it may reach. */
  method Update(node: HeapNode, cells: seq<Cell>, bitmap: nat, count: nat, ghost model: Node,
                ghost below: set<HeapNode>)
    requires KidsIn(cells, below) && node !in below
    requires CellsAre(node.kind, node.hash, bitmap, count, cells, model)
    modifies node
    ensures node.Shaped() && node.model == model && node.Repr == below + {node}
  {
    node.cells, node.bitmap, node.count := cells, bitmap, count;
    node.model, node.Repr := model, below + {node};
  }

  /** The cells in use and the spare ones of a copy. */
  function Copied(kind: Kind, bitmap: nat, count: nat, cells: seq<Cell>): seq<Cell> {
    match kind
    case BitmapKind => if PopCount(bitmap) <= |cells| then cells[..PopCount(bitmap)] + Spare(1) else cells
    case ArrayKind => cells
    case CollisionKind => if count <= |cells| then cells[..count] + Spare(1) else cells
  }

  /** `ensureEditable`: the node itself if the transient owns it, else a copy with a spare cell. */
  method EnsureEditable(node: HeapNode, token: Token) returns (r: HeapNode)
    ensures r.token == token && r.kind == node.kind && r.bitmap == node.bitmap && r.count == node.count &&
              r.hash == node.hash
    ensures node.token == token ==> r == node
    ensures node.token != token ==> fresh(r) && r.cells == Copied(node.kind, node.bitmap, node.count, node.cells)
  {
    if node.token == token { return node; }
    r := new HeapNode(token, node.kind, node.hash, node.bitmap, node.count,
                      Copied(node.kind, node.bitmap, node.count, node.cells), node.model, {});
  }

  /** Nodes of `token` hang only below nodes of `token`, for a node built over `below`. */
  lemma ClosedOver(node: HeapNode, below: set<HeapNode>, token: Token)
    requires node.token == token && node.Repr == below + {node}
    requires forall m, x | m in below && m.token != token && x in m.Repr :: x.token != token
    ensures node.Closed(token)
  {
  }

  /** The number of cells in use. */
  function InUse(node: HeapNode): nat
    reads node
  {
    match node.kind
    case BitmapKind => PopCount(node.bitmap)
    case ArrayKind => NODE_SIZE
    case CollisionKind => node.count
  }

  /** `editAndSet`: one cell of the node, or of its editable copy, is set. */
  method EditAndSet(node: HeapNode, token: Token, idx: nat, cell: Cell, ghost model: Node)
    returns (r: HeapNode)
    requires idx < |node.cells| && node.KidsOk(idx) && node.Closed(token)
    requires CellsAre(node.kind, node.hash, node.bitmap, node.count, node.cells[idx := cell], model)
    requires cell.Sub? ==>
               && cell.node.Shaped() && cell.node.Closed(token) && node !in cell.node.Repr
               && forall i | 0 <= i < |node.cells| && i != idx && node.cells[i].Sub? ::
                    node.cells[i].node.Repr !! cell.node.Repr
    requires idx < InUse(node)
    modifies if node.token == token then {node} else {}
    ensures r.Shaped() && r.Closed(token) && r.token == token && r.model == model
    ensures node.token == token ==> r == node
    ensures node.token != token ==> fresh(r)
    ensures r.Repr == old(node.Repr) - {node} + (if cell.Sub? then cell.node.Repr else {}) + {r}
  {
    hide KidsIn, CellsAre, Copied;
    r := EnsureEditable(node, token);
    ghost var below := node.Repr - {node} + if cell.Sub? then cell.node.Repr else {};
    EditedKids(node, r.cells, idx, cell, model, below);
    Update(r, r.cells[idx := cell], r.bitmap, r.count, model, below);
    ClosedOver(r, below, token);
  }

  /** The cells of a node, or of its copy, with one of those in use replaced. */
  lemma EditedKids(node: HeapNode, cells: seq<Cell>, idx: nat, cell: Cell, model: Node, below: set<HeapNode>)
    requires idx < |node.cells| && node.KidsOk(idx) && idx < InUse(node)
    requires CellsAre(node.kind, node.hash, node.bitmap, node.count, node.cells[idx := cell], model)
    requires cell.Sub? ==>
               && cell.node.Shaped() && node !in cell.node.Repr
               && forall i | 0 <= i < |node.cells| && i != idx && node.cells[i].Sub? ::
                    node.cells[i].node.Repr !! cell.node.Repr
    requires cells == node.cells || cells == Copied(node.kind, node.bitmap, node.count, node.cells)
    requires below == node.Repr - {node} + if cell.Sub? then cell.node.Repr else {}
    ensures idx < |cells| && KidsIn(cells[idx := cell], below)
    ensures CellsAre(node.kind, node.hash, node.bitmap, node.count, cells[idx := cell], model)
  {
    hide PopCount;
  }

  // ---- Association ----

  /** `assoc` on the empty node: a new node with three spare cells. */
  method AssocEmpty(token: Token, shift: nat, key: Key, val: Val) returns (r: HeapNode)
    requires shift % NODE_LOG_SIZE == 0 && shift <= 30
    ensures r.Shaped() && r.Closed(token) && r.token == token && fresh(r) && r.Repr == {r}
    ensures r.model == Singleton(shift, key, val)
    ensures AssocLaw(EmptyBMINode, r.model, true, shift, key, val)
  {
    EmptyAssoc(shift, key, val);
    r := new HeapNode(token, BitmapKind, 0, BitPos(key.hash, shift), 0, [KeyVal(key, val)] + Spare(3),
                      Singleton(shift, key, val), {});
  }

  lemma EmptyAssoc(shift: nat, key: Key, val: Val)
    requires shift % NODE_LOG_SIZE == 0 && shift <= 30
    ensures AssocLaw(EmptyBMINode, Singleton(shift, key, val), true, shift, key, val)
    ensures PopCount(BitPos(key.hash, shift)) == 1
  {
    SingletonValid(shift, key, val);
    FindInEmpty(shift, key);
    forall k: Key ensures AssocAt(EmptyBMINode, Singleton(shift, key, val), shift, key, val, k) {
      if Pre(k.hash, shift) == Pre(key.hash, shift) {
        FindInEmpty(shift, k);
        FindInSingleton(shift, key, val, k);
      }
    }
  }

  /** `createNode`: two inequivalent keys under one node. */
  method CreateNode(token: Token, shift: nat, key1: Key, val1: Val, key2: Key, val2: Val) returns (r: HeapNode)
    requires shift % NODE_LOG_SIZE == 0 && shift <= 35
    requires !Equiv(key1, key2) && Pre(key1.hash, shift) == Pre(key2.hash, shift)
    ensures r.Shaped() && r.Closed(token) && fresh(r.Repr)
    ensures PairLaw(r.model, shift, key1, val1, key2, val2)
    decreases 40 - shift, 6
  {
    if key1.hash == key2.hash {
      PairCollision(shift, key1, val1, key2, val2);
      r := new HeapNode(NOEDIT, CollisionKind, key1.hash, 0, 2, [KeyVal(key1, val1), KeyVal(key2, val2)],
                        Collision(key1.hash, [Entry(key1, val1), Entry(key2, val2)]), {});
      return;
    }
    PairShift(shift, key1, key2);
    var first := AssocEmpty(token, shift, key1, val1);
    ghost var model := first.model;
    var added;
    r, added := Assoc(first, token, shift, key2, val2);
    PairAssoc(model, r.model, true, added, shift, key1, val1, key2, val2);
  }

  /** Transient `assoc`: only nodes of this transient change, and every lookup in the result says that
      `key` is associated with `val` and nothing else has changed. */
  method Assoc(node: HeapNode, token: Token, shift: nat, key: Key, val: Val) returns (r: HeapNode, added: bool)
    requires node.Valid(shift, Pre(key.hash, shift)) && node.Closed(token)
    modifies set m | m in node.Repr && m.token == token
    ensures r.Shaped() && r.Closed(token) && fresh(r.Repr - old(node.Repr))
    ensures AssocLaw(old(node.model), r.model, added, shift, key, val)
    decreases 40 - shift, if node.kind == CollisionKind then 5 else 3
  {
    match node.kind
    case BitmapKind => r, added := AssocBitmap(node, token, shift, key, val);
    case ArrayKind => r, added := AssocArray(node, token, shift, key, val);
    case CollisionKind => r, added := AssocCollision(node, token, shift, key, val);
  }

  method AssocBitmap(node: HeapNode, token: Token, shift: nat, key: Key, val: Val) returns (r: HeapNode, added: bool)
    requires node.kind == BitmapKind && node.Valid(shift, Pre(key.hash, shift)) && node.Closed(token)
    modifies set m | m in node.Repr && m.token == token
    ensures r.Shaped() && r.Closed(token) && fresh(r.Repr - old(node.Repr))
    ensures AssocLaw(old(node.model), r.model, added, shift, key, val)
    decreases 40 - shift, 1
  {
    var bit := BitPos(key.hash, shift);
    var idx := Index(node.bitmap, bit);
    Parts(node, -1);
    SlotFor(node.bitmap, node.model.slots, shift, key);
    if And(node.bitmap, bit) != 0 {
      r, added := AssocCell(node, token, shift, idx, key, val);
      return;
    }
    var n := PopCount(node.bitmap);
    if n < |node.cells| {
      r := InsertInPlace(node, token, shift, idx, key, val);
    } else if n >= NODE_SIZE / 2 {
      r := SpreadOut(node, token, shift, key, val);
    } else {
      r := InsertWider(node, token, shift, idx, key, val);
    }
    added := true;
  }

  /** The occupied cell `idx` of a bitmap node takes the association. */
  method AssocCell(node: HeapNode, token: Token, shift: nat, idx: nat, key: Key, val: Val)
    returns (r: HeapNode, added: bool)
    requires node.kind == BitmapKind && node.Valid(shift, Pre(key.hash, shift)) && node.Closed(token)
    requires Bit(node.bitmap, Mask(key.hash, shift)) &&
               idx == Rank(node.bitmap, Mask(key.hash, shift)) < PopCount(node.bitmap)
    modifies set m | m in node.Repr && m.token == token
    ensures r.Shaped() && r.Closed(token) && fresh(r.Repr - old(node.Repr))
    ensures AssocLaw(old(node.model), r.model, added, shift, key, val)
    decreases 40 - shift, 0, 1
  {
    hide AssocLaw, SlotLaw, PairLaw, Find, PopCount, Rank, Bit, Low, Pow2;
    ghost var bitmap, slots := node.bitmap, node.model.slots;
    Parts(node, -1);
    Parts(node, idx);
    SlotFor(bitmap, slots, shift, key);
    assert CellIs(node.cells[idx], slots[idx]);
    match node.cells[idx] {
      case Sub(child) =>
        r, added := AssocChild(node, token, shift, idx, child, key, val);
      case KeyVal(k0, v0) =>
        if Equiv(key, k0) {
          LeafSet(k0, v0, shift + NODE_LOG_SIZE, key, val);
          SlotEdited(bitmap, slots, Leaf(k0, val), false, shift, key, val);
          if v0 == val {
            assert slots[idx := Leaf(k0, val)] == slots;
            return node, false;
          }
          r := EditAndSet(node, token, idx, KeyVal(k0, val), Bitmap(bitmap, slots[idx := Leaf(k0, val)]));
          added := false;
        } else {
          var split := CreateNode(token, shift + NODE_LOG_SIZE, k0, v0, key, val);
          LeafSplit(k0, v0, split.model, shift + NODE_LOG_SIZE, key, val);
          SlotEdited(bitmap, slots, Child(split.model), true, shift, key, val);
          r := EditAndSet(node, token, idx, Sub(split), Bitmap(bitmap, slots[idx := Child(split.model)]));
          added := true;
        }
    }
  }

  /** The subtrie in cell `idx` of a bitmap node takes the association. */
  method AssocChild(node: HeapNode, token: Token, shift: nat, idx: nat, child: HeapNode, key: Key, val: Val)
    returns (r: HeapNode, added: bool)
    requires node.kind == BitmapKind && node.Valid(shift, Pre(key.hash, shift)) && node.Closed(token)
    requires Bit(node.bitmap, Mask(key.hash, shift)) &&
               idx == Rank(node.bitmap, Mask(key.hash, shift)) < PopCount(node.bitmap)
    requires idx < |node.cells| && node.cells[idx] == Sub(child)
    modifies set m | m in node.Repr && m.token == token
    ensures r.Shaped() && r.Closed(token) && fresh(r.Repr - old(node.Repr))
    ensures AssocLaw(old(node.model), r.model, added, shift, key, val)
    decreases 40 - shift, 0, 0
  {
    hide AssocLaw, SlotLaw, Find;
    ghost var bitmap, slots := node.bitmap, node.model.slots;
    Parts(node, -1);
    SlotFor(bitmap, slots, shift, key);
    assert CellIs(node.cells[idx], slots[idx]);
    KidAt(node, idx, token);
    var n;
    n, added := AssocBelow(node, token, shift + NODE_LOG_SIZE, idx, child, key, val);
    ChildSet(slots[idx].node, n.model, added, shift + NODE_LOG_SIZE, key, val);
    SlotEdited(bitmap, slots, Child(n.model), added, shift, key, val);
    r := Rehang(node, token, idx, child, n, Bitmap(bitmap, slots[idx := Child(n.model)]));
  }

  /** Association in the subtrie in cell `idx`: the rest of the node stays as it is. */
  method AssocBelow(node: HeapNode, token: Token, shift: nat, idx: nat, child: HeapNode, key: Key, val: Val)
    returns (n: HeapNode, added: bool)
    requires node.KidsOk(-1) && node.Closed(token) && idx < |node.cells| && node.cells[idx] == Sub(child)
    requires child.Valid(shift, Pre(key.hash, shift))
    modifies set m | m in child.Repr && m.token == token
    ensures n.Shaped() && n.Closed(token) && fresh(n.Repr - old(child.Repr)) && node !in n.Repr
    ensures AssocLaw(old(child.model), n.model, added, shift, key, val)
    ensures unchanged(node) && node.KidsOk(idx) && node.Closed(token)
    ensures forall i | 0 <= i < |node.cells| && i != idx && node.cells[i].Sub? ::
              node.cells[i].node.model == old(node.cells[i].node.model) && node.cells[i].node.Repr !! n.Repr
    ensures n == child && node.token != token ==> n.model == old(child.model) && n.Repr <= node.Repr
    decreases 40 - shift, 8
  {
    hide AssocLaw, Find;
    KidAt(node, idx, token);
    n, added := Assoc(child, token, shift, key, val);
    forall i | 0 <= i < |node.cells| && i != idx && node.cells[i].Sub?
      ensures var k := node.cells[i].node;
              unchanged(k) && k.Repr !! old(child.Repr) && k.Repr !! n.Repr && k in node.Repr && k.Repr <= node.Repr &&
              node !in k.Repr && k.Shaped()
    {
      var k := node.cells[i].node;
      assert old(k.Shaped()) && old(k.Repr) !! old(child.Repr);
      assert old(k.KidsOk(-1));
    }
  }

  /** The node takes the subtrie `n` for the subtrie `child`; if that was edited in place, or not at
      all, nothing is left to do. */
  method Rehang(node: HeapNode, token: Token, idx: nat, child: HeapNode, n: HeapNode, ghost model: Node)
    returns (r: HeapNode)
    requires idx < |node.cells| && node.cells[idx] == Sub(child) && node.KidsOk(idx) && node.Closed(token)
    requires n.Shaped() && n.Closed(token) && node !in n.Repr
    requires forall i | 0 <= i < |node.cells| && i != idx && node.cells[i].Sub? :: node.cells[i].node.Repr !! n.Repr
    requires CellsAre(node.kind, node.hash, node.bitmap, node.count, node.cells[idx := Sub(n)], model)
    requires idx < InUse(node)
    requires n == child && node.token != token ==> model == node.model && n.Repr <= node.Repr
    modifies if node.token == token then {node} else {}
    ensures r.Shaped() && r.Closed(token) && r.model == model && fresh(r.Repr - old(node.Repr) - n.Repr)
  {
    if n != child {
      r := EditAndSet(node, token, idx, Sub(n), model);
      return;
    }
    assert node.cells[idx := Sub(n)] == node.cells;
    r := node;
    if node.token == token {
      ghost var below := node.Repr - {node} + n.Repr;
      assert KidsIn(node.cells, below);
      Update(node, node.cells, node.bitmap, node.count, model, below);
      ClosedOver(node, below, token);
    }
  }

  // ---- Inserting into a bitmap node ----

  /** The cells with a pair inserted at `idx` among the first `n`; the cell behind them is spare. */
  function Inserted(cells: seq<Cell>, n: nat, idx: nat, cell: Cell): (r: seq<Cell>)
    requires idx <= n < |cells|
    ensures |r| == |cells|
    ensures forall j | 0 <= j < |r| ::
              r[j] == if j < idx then cells[j] else if j == idx then cell else if j <= n then cells[j - 1] else cells[j]
  {
    cells[..idx] + [cell] + cells[idx..n] + cells[n + 1..]
  }

  lemma InsertedKids(cells: seq<Cell>, n: nat, idx: nat, key: Key, val: Val, below: set<HeapNode>)
    requires idx <= n < |cells| && KidsIn(cells, below) && cells[n].Empty?
    ensures KidsIn(Inserted(cells, n, idx, KeyVal(key, val)), below)
  {
    var r := Inserted(cells, n, idx, KeyVal(key, val));
    forall i, j | 0 <= i < j < |r| && r[i].Sub? && r[j].Sub? ensures r[i].node.Repr !! r[j].node.Repr {
      var a, b := if i < idx || i > n then i else i - 1, if j < idx || j > n then j else j - 1;
      assert cells[a] == r[i] && cells[b] == r[j] && a < b;
    }
  }

  lemma InsertedCells(bitmap: nat, bitmap': nat, cells: seq<Cell>, slots: seq<Slot>, idx: nat, key: Key, val: Val)
    requires |slots| == PopCount(bitmap) < |cells| && idx <= |slots| && PopCount(bitmap') == PopCount(bitmap) + 1
    requires CellsAre(BitmapKind, 0, bitmap, 0, cells, Bitmap(bitmap, slots))
    ensures CellsAre(BitmapKind, 0, bitmap', 0, Inserted(cells, |slots|, idx, KeyVal(key, val)),
                     Bitmap(bitmap', Insert(slots, idx, Leaf(key, val))))
  {
    var r, s := Inserted(cells, |slots|, idx, KeyVal(key, val)), Insert(slots, idx, Leaf(key, val));
    forall i | 0 <= i < PopCount(bitmap') ensures CellIs(r[i], s[i]) {
      if i != idx { assert CellIs(cells[if i < idx then i else i - 1], slots[if i < idx then i else i - 1]); }
    }
  }

  /** The pairs from `idx` on move up by one cell. */
  method ShiftUp(node: HeapNode, n: nat, idx: nat)
    requires idx <= n < |node.cells|
    modifies node`cells
    ensures |node.cells| == old(|node.cells|)
    ensures forall j | 0 <= j < |node.cells| ::
              node.cells[j] == old(if idx < j <= n then node.cells[j - 1] else node.cells[j])
  {
    var i := n;
    while i > idx
      invariant idx <= i <= n && |node.cells| == old(|node.cells|)
      invariant forall j | 0 <= j < |node.cells| ::
                  node.cells[j] == old(if i < j <= n then node.cells[j - 1] else node.cells[j])
    {
      node.cells := node.cells[i := node.cells[i - 1]];
      i := i - 1;
    }
  }

  lemma ShiftedUp(before: seq<Cell>, after: seq<Cell>, n: nat, idx: nat, cell: Cell)
    requires idx <= n < |before| == |after|
    requires forall j {:trigger after[j]} | 0 <= j < |after| ::
               after[j] == if idx < j <= n then before[j - 1] else before[j]
    ensures after[idx := cell] == Inserted(before, n, idx, cell)
  {
  }

  /** A new pair goes into a node, or its editable copy, with a spare cell. */
  method InsertInPlace(node: HeapNode, token: Token, shift: nat, idx: nat, key: Key, val: Val) returns (r: HeapNode)
    requires node.kind == BitmapKind && node.Valid(shift, Pre(key.hash, shift)) && node.Closed(token)
    requires !Bit(node.bitmap, Mask(key.hash, shift)) && idx == Rank(node.bitmap, Mask(key.hash, shift))
    requires PopCount(node.bitmap) < |node.cells|
    modifies if node.token == token then {node} else {}
    ensures r.Shaped() && r.Closed(token) && fresh(r.Repr - old(node.Repr))
    ensures AssocLaw(old(node.model), r.model, true, shift, key, val)
  {
    hide AssocLaw, Find, PopCount, Rank, Bit, Low, Pow2, Or, Insert, Mask, KidsIn, CellsAre, Copied, Inserted;
    ghost var below := node.Repr - {node};
    SpareKids(node, node.cells, below);
    ghost var bitmap, slots := node.bitmap, node.model.slots;
    SlotInserted(bitmap, slots, shift, key, val);
    SlotOfBit(bitmap, Mask(key.hash, shift));
    var n := PopCount(node.bitmap);
    r := EnsureEditable(node, token);
    ghost var cells := r.cells;
    SpareKids(node, cells, below);
    InsertedKids(cells, n, idx, key, val, below);
    InsertedCells(bitmap, Or(bitmap, BitPos(key.hash, shift)), cells, slots, idx, key, val);
    ShiftUp(r, n, idx);
    ShiftedUp(cells, r.cells, n, idx, KeyVal(key, val));
    Update(r, r.cells[idx := KeyVal(key, val)], Or(r.bitmap, BitPos(key.hash, shift)), r.count,
           Bitmap(Or(bitmap, BitPos(key.hash, shift)), Insert(slots, idx, Leaf(key, val))), below);
    ClosedOver(r, below, token);
  }

  /** The cells of a bitmap node with a spare cell, or of its copy. */
  lemma SpareKids(node: HeapNode, cells: seq<Cell>, below: set<HeapNode>)
    requires node.kind == BitmapKind && node.Shaped() && PopCount(node.bitmap) < |node.cells|
    requires cells == node.cells || cells == Copied(node.kind, node.bitmap, node.count, node.cells)
    requires below == node.Repr - {node}
    ensures KidsIn(cells, below) && PopCount(node.bitmap) < |cells| && cells[PopCount(node.bitmap)].Empty?
    ensures node.model.Bitmap? && |node.model.slots| == PopCount(node.bitmap)
    ensures node.model == Bitmap(node.bitmap, node.model.slots)
    ensures CellsAre(BitmapKind, 0, node.bitmap, 0, cells, Bitmap(node.bitmap, node.model.slots))
  {
    hide PopCount;
  }

  /** A new pair goes into a wider array, with three cells to spare. */
  method InsertWider(node: HeapNode, token: Token, shift: nat, idx: nat, key: Key, val: Val) returns (r: HeapNode)
    requires node.kind == BitmapKind && node.Valid(shift, Pre(key.hash, shift)) && node.Closed(token)
    requires !Bit(node.bitmap, Mask(key.hash, shift)) && idx == Rank(node.bitmap, Mask(key.hash, shift))
    modifies if node.token == token then {node} else {}
    ensures r.Shaped() && r.Closed(token) && fresh(r.Repr - old(node.Repr))
    ensures AssocLaw(old(node.model), r.model, true, shift, key, val)
  {
    hide AssocLaw, BitPos, Spare;
    ghost var bitmap, slots, below := node.bitmap, node.model.slots, node.Repr - {node};
    Parts(node, -1);
    SlotInserted(bitmap, slots, shift, key, val);
    SlotOfBit(bitmap, Mask(key.hash, shift));
    var n := PopCount(node.bitmap);
    var wide := node.cells[..n] + Spare(4);
    var cells := node.cells[..idx] + [KeyVal(key, val)] + node.cells[idx..n] + Spare(3);
    assert KidsIn(wide, below);
    InsertedKids(wide, n, idx, key, val, below);
    InsertedCells(bitmap, Or(bitmap, BitPos(key.hash, shift)), wide, slots, idx, key, val);
    assert cells == Inserted(wide, n, idx, KeyVal(key, val));
    r := EnsureEditable(node, token);
    Update(r, cells, Or(r.bitmap, BitPos(key.hash, shift)), r.count,
           Bitmap(Or(bitmap, BitPos(key.hash, shift)), Insert(slots, idx, Leaf(key, val))), below);
    ClosedOver(r, below, token);
  }

  // ---- From a bitmap node to an array node ----

  /** Cell `x` of the array node after the growth loop has passed `i` cells: the subtrie of its bit,
      the node `made` for a single pair, or nothing. */
  ghost predicate SpreadAt(node: HeapNode, shift: nat, m: nat, first: HeapNode, made: map<nat, HeapNode>, i: nat,
                           cell: Cell, x: nat)
    reads node, made.Values
  {
    if x < i && Bit(node.bitmap, x) then
      && Rank(node.bitmap, x) < |node.cells|
      && match node.cells[Rank(node.bitmap, x)]
         case Sub(kid) => cell == Sub(kid) && x !in made
         case KeyVal(k, v) => x in made && cell == Sub(made[x]) &&
           made[x].model == Singleton(shift + NODE_LOG_SIZE, k, v)
         case Empty => false
    else if x == m then x in made && made[x] == first && cell == Sub(first)
    else cell == Empty && x !in made
  }

  ghost predicate Spreading(node: HeapNode, shift: nat, m: nat, first: HeapNode, made: map<nat, HeapNode>, i: nat,
                            cells: seq<Cell>)
    reads node, made.Values
  {
    && |cells| == NODE_SIZE
    && (forall x: nat | x < NODE_SIZE :: SpreadAt(node, shift, m, first, made, i, cells[x], x))
    && (forall x | x in made :: x < NODE_SIZE && made[x].Repr == {made[x]} && made[x].Shaped())
    && (forall x, y | x in made && y in made && x != y :: made[x] != made[y])
  }

  /** A full bitmap node with sixteen or more pairs turns into an array node. */
  method SpreadOut(node: HeapNode, token: Token, shift: nat, key: Key, val: Val) returns (r: HeapNode)
    requires node.kind == BitmapKind && node.Valid(shift, Pre(key.hash, shift)) && node.Closed(token)
    requires PopCount(node.bitmap) >= NODE_SIZE / 2 && !Bit(node.bitmap, Mask(key.hash, shift))
    ensures r.Shaped() && r.Closed(token) && fresh(r.Repr - old(node.Repr))
    ensures AssocLaw(old(node.model), r.model, true, shift, key, val)
  {
    hide AssocLaw, Find, Spreading, SpreadAt, Bit, Grow, KidsIn, CellsAre, AssocAt;
    var m := Mask(key.hash, shift);
    var bitmap := node.bitmap;
    Parts(node, -1);
    SmallBitmap(bitmap, 4);
    assert Pow2(4) == 16;
    Grown(node.model, shift, key, val);
    var first := AssocEmpty(token, shift + NODE_LOG_SIZE, key, val);
    var cells;
    ghost var made;
    PairsUsed(node);
    cells, made := SpreadLoop(node, token, shift, m, first);
    ghost var below := node.Repr - {node} + made.Values;
    SpreadKids(node, shift, m, first, made, cells);
    SpreadCells(node, shift, key, val, first, made, cells);
    r := new HeapNode(token, ArrayKind, 0, 0, PopCount(bitmap) + 1, cells, Grow(node.model, shift, key, val).node,
      below);
    assert KidsIn(r.cells, below);
    ClosedOver(r, below, token);
  }

  /** The growth loop: `j` walks the pairs, `i` the 32 cells. */
  method SpreadLoop(node: HeapNode, token: Token, shift: nat, m: nat, first: HeapNode)
    returns (cells: seq<Cell>, ghost made: map<nat, HeapNode>)
    requires node.bitmap < WORD && shift % NODE_LOG_SIZE == 0 && shift <= 25 && m < NODE_SIZE && !Bit(node.bitmap, m)
    requires PopCount(node.bitmap) <= |node.cells| && forall i | 0 <= i < PopCount(node.bitmap) :: !node.cells[i].Empty?
    requires first.Shaped() && first.token == token && first.Repr == {first}
    ensures Spreading(node, shift, m, first, made, NODE_SIZE, cells)
    ensures forall x | x in made :: made[x] == first || fresh(made[x])
    ensures forall x | x in made :: made[x].token == token
  {
    hide AssocLaw, Spreading, CellsAre, PopCount, Bit, Low;
    var bitmap := node.bitmap;
    cells := Spare(NODE_SIZE)[m := Sub(first)];
    made := map[m := first];
    SpreadStart(node, shift, m, first, cells);
    var i, j := 0, 0;
    while i < NODE_SIZE
      invariant i <= NODE_SIZE && j == Rank(bitmap, i)
      invariant Spreading(node, shift, m, first, made, i, cells)
      invariant |cells| == NODE_SIZE
      invariant forall x | x in made :: made[x].token == token && (made[x] == first || fresh(made[x]))
    {
      SlotOfBit(bitmap, i);
      RankStep(bitmap, i);
      if Bit(bitmap, i) {
        match node.cells[j] {
          case Sub(kid) =>
            SpreadStep(node, shift, m, first, made, i, cells, first);
            cells := cells[i := Sub(kid)];
          case KeyVal(k, v) =>
            var single := AssocEmpty(token, shift + NODE_LOG_SIZE, k, v);
            SpreadStep(node, shift, m, first, made, i, cells, single);
            cells := cells[i := Sub(single)];
            made := made[i := single];
        }
        j := j + 1;
      } else {
        SpreadSkip(node, shift, m, first, made, i, cells);
      }
      i := i + 1;
    }
  }

  lemma PairsUsed(node: HeapNode)
    requires node.kind == BitmapKind && node.Shaped()
    ensures PopCount(node.bitmap) <= |node.cells| && forall i | 0 <= i < PopCount(node.bitmap) :: !node.cells[i].Empty?
  {
    forall i | 0 <= i < PopCount(node.bitmap) ensures !node.cells[i].Empty? {
      assert CellIs(node.cells[i], node.model.slots[i]);
    }
  }

  lemma SpreadStart(node: HeapNode, shift: nat, m: nat, first: HeapNode, cells: seq<Cell>)
    requires m < NODE_SIZE && first.Repr == {first} && first.Shaped() && cells == Spare(NODE_SIZE)[m := Sub(first)]
    ensures Spreading(node, shift, m, first, map[m := first], 0, cells)
  {
  }

  /** The loop fills cell `i`, with the subtrie of its pair or a node made for the pair. */
  lemma SpreadStep(node: HeapNode, shift: nat, m: nat, first: HeapNode, made: map<nat, HeapNode>, i: nat,
                   cells: seq<Cell>,
                   single: HeapNode)
    requires Spreading(node, shift, m, first, made, i, cells) && i < NODE_SIZE && Bit(node.bitmap, i) && i != m
    requires Rank(node.bitmap, i) < |node.cells| && !node.cells[Rank(node.bitmap, i)].Empty?
    requires var c := node.cells[Rank(node.bitmap, i)];
             c.KeyVal? ==>
               && single.Repr == {single} && single.Shaped() && single !in made.Values
               && single.model == Singleton(shift + NODE_LOG_SIZE, c.key, c.val)
    ensures var c := node.cells[Rank(node.bitmap, i)];
            Spreading(node, shift, m, first, if c.Sub? then made else made[i := single], i + 1,
                      cells[i := if c.Sub? then c else Sub(single)])
  {
    var c := node.cells[Rank(node.bitmap, i)];
    var made', cells' := if c.Sub? then made else made[i := single], cells[i := if c.Sub? then c else Sub(single)];
    assert i !in made by { assert SpreadAt(node, shift, m, first, made, i, cells[i], i); }
    forall x: nat | x < NODE_SIZE ensures SpreadAt(node, shift, m, first, made', i + 1, cells'[x], x) {
      assert SpreadAt(node, shift, m, first, made, i, cells[x], x);
    }
  }

  /** The loop passes over a cell whose bit is clear. */
  lemma SpreadSkip(node: HeapNode, shift: nat, m: nat, first: HeapNode, made: map<nat, HeapNode>, i: nat,
                   cells: seq<Cell>)
    requires Spreading(node, shift, m, first, made, i, cells) && i < NODE_SIZE && !Bit(node.bitmap, i)
    ensures Spreading(node, shift, m, first, made, i + 1, cells)
  {
    forall x: nat | x < NODE_SIZE ensures SpreadAt(node, shift, m, first, made, i + 1, cells[x], x) {
      assert SpreadAt(node, shift, m, first, made, i, cells[x], x);
    }
  }

  lemma SpreadKids(node: HeapNode, shift: nat, m: nat, first: HeapNode, made: map<nat, HeapNode>, cells: seq<Cell>)
    requires node.KidsOk(-1) && Spreading(node, shift, m, first, made, NODE_SIZE, cells)
    requires forall x | x in made :: made[x] !in node.Repr
    ensures KidsIn(cells, node.Repr - {node} + made.Values)
  {
    forall x: nat | x < NODE_SIZE && cells[x].Sub?
      ensures if x in made then cells[x].node == made[x]
              else
                && Rank(node.bitmap, x) < |node.cells| && node.cells[Rank(node.bitmap, x)] == cells[x]
                && Bit(node.bitmap, x)
    {
      assert SpreadAt(node, shift, m, first, made, NODE_SIZE, cells[x], x);
    }
    forall x, y | 0 <= x < y < NODE_SIZE && cells[x].Sub? && cells[y].Sub?
      ensures cells[x].node.Repr !! cells[y].node.Repr {
      if x !in made && y !in made { RankMonotone(node.bitmap, x, y); }
    }
  }

  lemma SpreadCells(node: HeapNode, shift: nat, key: Key, val: Val, first: HeapNode, made: map<nat, HeapNode>,
                    cells: seq<Cell>)
    requires node.kind == BitmapKind && node.Valid(shift, Pre(key.hash, shift))
    requires PopCount(node.bitmap) >= NODE_SIZE / 2 && !Bit(node.bitmap, Mask(key.hash, shift))
    requires Spreading(node, shift, Mask(key.hash, shift), first, made, NODE_SIZE, cells)
    requires first.model == Singleton(shift + NODE_LOG_SIZE, key, val)
    ensures CellsAre(ArrayKind, 0, 0, PopCount(node.bitmap) + 1, cells, Grow(node.model, shift, key, val).node)
  {
    var m, bitmap, slots := Mask(key.hash, shift), node.bitmap, node.model.slots;
    var child := Singleton(shift + NODE_LOG_SIZE, key, val);
    var nodes := Grow(node.model, shift, key, val).node.nodes;
    forall x: nat | x < NODE_SIZE
      ensures !cells[x].KeyVal? && nodes[x] == if cells[x].Sub? then Some(cells[x].node.model) else None {
      PromotedAt(bitmap, slots, shift, m, child, NODE_SIZE, x);
      assert SpreadAt(node, shift, m, first, made, NODE_SIZE, cells[x], x);
      if Bit(bitmap, x) { assert CellIs(node.cells[Rank(bitmap, x)], slots[Rank(bitmap, x)]); }
    }
  }

  // ---- Array nodes ----

  method AssocArray(node: HeapNode, token: Token, shift: nat, key: Key, val: Val) returns (r: HeapNode, added: bool)
    requires node.kind == ArrayKind && node.Valid(shift, Pre(key.hash, shift)) && node.Closed(token)
    modifies set m | m in node.Repr && m.token == token
    ensures r.Shaped() && r.Closed(token) && fresh(r.Repr - old(node.Repr))
    ensures AssocLaw(old(node.model), r.model, added, shift, key, val)
    decreases 40 - shift, 1
  {
    hide AssocLaw, Find;
    var idx := Mask(key.hash, shift);
    ghost var count, nodes := node.model.count, node.model.nodes;
    Parts(node, -1);
    PreStep(key.hash, shift, Pre(key.hash, shift), idx);
    if node.cells[idx].Empty? {
      CellAdded(count, nodes, shift, key, val);
      r := AddCell(node, token, shift, idx, key, val);
      return r, true;
    }
    var child := node.cells[idx].node;
    KidAt(node, idx, token);
    var n;
    n, added := AssocBelow(node, token, shift + NODE_LOG_SIZE, idx, child, key, val);
    CellEdited(count, nodes, n.model, added, shift, key, val);
    r := Rehang(node, token, idx, child, n, Array(count, nodes[idx := Some(n.model)]));
  }

  /** A first pair goes into an empty cell of an array node. */
  method AddCell(node: HeapNode, token: Token, shift: nat, idx: nat, key: Key, val: Val) returns (r: HeapNode)
    requires node.kind == ArrayKind && node.Shaped() && node.Closed(token) && idx < |node.cells| &&
               node.cells[idx].Empty?
    requires shift % NODE_LOG_SIZE == 0 && shift <= 25
    modifies if node.token == token then {node} else {}
    ensures r.Shaped() && r.Closed(token) && fresh(r.Repr - old(node.Repr)) && old(node.model).Array?
    ensures idx < |old(node.model).nodes|
    ensures r.model == Array(old(node.model).count + 1,
                             old(node.model).nodes[idx := Some(Singleton(shift + NODE_LOG_SIZE, key, val))])
  {
    hide HeapNode.Shaped, AssocLaw;
    Parts(node, -1);
    var child := AssocEmpty(token, shift + NODE_LOG_SIZE, key, val);
    ghost var below, model := node.Repr - {node} + {child}, node.model;
    r := EnsureEditable(node, token);
    var cells := r.cells[idx := Sub(child)];
    assert KidsIn(cells, below);
    Update(r, cells, r.bitmap, r.count + 1, Array(model.count + 1, model.nodes[idx := Some(child.model)]), below);
    ClosedOver(r, below, token);
  }

  // ---- Collision nodes ----

  /** `findIndex`: the cell with an equivalent key; spare cells match no key. */
  method FindCell(cells: seq<Cell>, key: Key, ghost entries: seq<Entry>) returns (i: int)
    requires |entries| <= |cells| && forall x | 0 <= x < |entries| :: cells[x] == KeyVal(entries[x].key, entries[x].val)
    requires forall x | |entries| <= x < |cells| :: cells[x].Empty?
    requires forall x, y | 0 <= x < y < |entries| :: !Equiv(entries[x].key, entries[y].key)
    ensures i == FindIndex(entries, key)
  {
    i := 0;
    while i < |cells|
      invariant 0 <= i <= |cells|
      invariant forall x | 0 <= x < i && x < |entries| :: !Equiv(key, entries[x].key)
    {
      if cells[i].KeyVal? && Equiv(key, cells[i].key) {
        FindIndexUnique(entries, key);
        return;
      }
      i := i + 1;
    }
    return -1;
  }

  method AssocCollision(node: HeapNode, token: Token, shift: nat, key: Key, val: Val) returns (r: HeapNode, added: bool)
    requires node.kind == CollisionKind && node.Valid(shift, Pre(key.hash, shift)) && node.Closed(token)
    modifies set m | m in node.Repr && m.token == token
    ensures r.Shaped() && r.Closed(token) && fresh(r.Repr - old(node.Repr))
    ensures AssocLaw(old(node.model), r.model, added, shift, key, val)
    decreases 40 - shift, 4
  {
    hide AssocLaw, Find, FindIndex;
    ghost var model, entries := node.model, node.model.entries;
    Parts(node, -1);
    if key.hash == node.hash {
      EntrySet(node.hash, entries, shift, key, val);
      var idx := FindCell(node.cells, key, entries);
      if idx != -1 {
        if node.cells[idx].val == val {
          assert entries[idx := Entry(entries[idx].key, val)] == entries;
          return node, false;
        }
        r := EditAndSet(node, token, idx, KeyVal(node.cells[idx].key, val),
                        Collision(node.hash, entries[idx := Entry(entries[idx].key, val)]));
        return r, false;
      }
      r := AddEntry(node, token, key, val);
      return r, true;
    }
    WrapValid(model, shift, key);
    var wrap := WrapNode(node, token, shift);
    r, added := Assoc(wrap, token, shift, key, val);
    Wrapped(model, r.model, added, shift, key, val);
  }

  /** A collision node under a bitmap node of its own, with a spare cell. */
  method WrapNode(node: HeapNode, token: Token, shift: nat) returns (r: HeapNode)
    requires node.kind == CollisionKind && node.Shaped() && node.Closed(token)
    ensures r.Shaped() && r.Closed(token) && fresh(r) && r.Repr == node.Repr + {r} && r.kind == BitmapKind
    ensures node.model.Collision? && r.model == Wrap(node.model, shift)
  {
    Parts(node, -1);
    BitOnly(Mask(node.hash, shift));
    r := new HeapNode(token, BitmapKind, 0, BitPos(node.hash, shift), 0, [Sub(node), Empty], Wrap(node.model, shift),
      node.Repr);
    assert KidsIn(r.cells, node.Repr);
    ClosedOver(r, node.Repr, token);
  }

  lemma BitOnly(m: nat)
    ensures PopCount(Pow2(m)) == 1
  {
    if m > 0 { BitOnly(m - 1); }
  }

  /** An entry is added to a collision node: in place if it has a spare cell, else to a copy with one
      cell more, which an owned node takes over. */
  method AddEntry(node: HeapNode, token: Token, key: Key, val: Val) returns (r: HeapNode)
    requires node.kind == CollisionKind && node.Shaped() && node.Closed(token)
    modifies if node.token == token then {node} else {}
    ensures r.Shaped() && r.Closed(token) && fresh(r.Repr - old(node.Repr)) && old(node.model).Collision?
    ensures r.model == Collision(node.hash, old(node.model).entries + [Entry(key, val)])
  {
    Parts(node, -1);
    ghost var below, entries := node.Repr - {node}, node.model.entries;
    var n := node.count;
    if n < |node.cells| {
      r := EnsureEditable(node, token);
    } else if node.token == token {
      node.cells := node.cells + Spare(1);
      r := node;
    } else {
      r := new HeapNode(token, CollisionKind, node.hash, 0, n, node.cells + Spare(1), node.model, {});
    }
    var cells := r.cells[n := KeyVal(key, val)];
    assert forall i | 0 <= i < n :: cells[i] == KeyVal(entries[i].key, entries[i].val);
    Update(r, cells, r.bitmap, n + 1, Collision(node.hash, entries + [Entry(key, val)]), below);
    ClosedOver(r, below, token);
  }

  // ---- Removal ----

  /** Transient `without`: only nodes of this transient change; `key` is gone from the result, and
      nothing else is. Null where nothing is left. */
  method Without(node: HeapNode, token: Token, shift: nat, key: Key) returns (r: HeapNode?, removed: bool)
    requires node.Valid(shift, Pre(key.hash, shift)) && node.Closed(token)
    modifies set m | m in node.Repr && m.token == token
    ensures r != null ==> r.Shaped() && r.Closed(token) && fresh(r.Repr - old(node.Repr))
    ensures WithoutLaw(old(node.model), if r == null then None else Some(r.model), removed, shift, key)
    ensures r == null ==> removed
    decreases 40 - shift, 2
  {
    match node.kind
    case BitmapKind => r, removed := WithoutBitmap(node, token, shift, key);
    case ArrayKind => r, removed := WithoutArray(node, token, shift, key);
    case CollisionKind => r, removed := WithoutCollision(node, token, shift, key);
  }

  /** Removal in the subtrie in cell `idx`: the rest of the node stays as it is. */
  method WithoutBelow(node: HeapNode, token: Token, shift: nat, idx: nat, child: HeapNode, key: Key)
    returns (n: HeapNode?, removed: bool)
    requires node.KidsOk(-1) && node.Closed(token) && idx < |node.cells| && node.cells[idx] == Sub(child)
    requires child.Valid(shift, Pre(key.hash, shift))
    modifies set m | m in child.Repr && m.token == token
    ensures n != null ==> n.Shaped() && n.Closed(token) && fresh(n.Repr - old(child.Repr)) && node !in n.Repr
    ensures WithoutLaw(old(child.model), if n == null then None else Some(n.model), removed, shift, key)
    ensures n == null ==> removed
    ensures unchanged(node) && node.KidsOk(idx) && node.Closed(token)
    ensures forall i | 0 <= i < |node.cells| && i != idx && node.cells[i].Sub? ::
              && node.cells[i].node.model == old(node.cells[i].node.model)
              && (n != null ==> node.cells[i].node.Repr !! n.Repr)
    ensures n == child && node.token != token ==> n.model == old(child.model) && n.Repr <= node.Repr
    decreases 40 - shift, 8
  {
    hide WithoutLaw, Find;
    KidAt(node, idx, token);
    n, removed := Without(child, token, shift, key);
    forall i | 0 <= i < |node.cells| && i != idx && node.cells[i].Sub?
      ensures var k := node.cells[i].node;
              unchanged(k) && k.Repr !! old(child.Repr) && (n != null ==> k.Repr !! n.Repr) && k in node.Repr &&
              k.Repr <= node.Repr && node !in k.Repr && k.Shaped()
    {
      var k := node.cells[i].node;
      assert old(k.Shaped()) && old(k.Repr) !! old(child.Repr);
      assert old(k.KidsOk(-1));
    }
  }

  method WithoutBitmap(node: HeapNode, token: Token, shift: nat, key: Key) returns (r: HeapNode?, removed: bool)
    requires node.kind == BitmapKind && node.Valid(shift, Pre(key.hash, shift)) && node.Closed(token)
    modifies set m | m in node.Repr && m.token == token
    ensures r != null ==> r.Shaped() && r.Closed(token) && fresh(r.Repr - old(node.Repr))
    ensures WithoutLaw(old(node.model), if r == null then None else Some(r.model), removed, shift, key)
    ensures r == null ==> removed
    decreases 40 - shift, 1
  {
    hide WithoutLaw;
    ghost var bitmap, slots := node.bitmap, node.model.slots;
    var bit := BitPos(key.hash, shift);
    var idx := Index(node.bitmap, bit);
    Parts(node, -1);
    SlotFor(bitmap, slots, shift, key);
    FindInSlot(bitmap, slots, shift, key);
    if And(node.bitmap, bit) == 0 {
      NotThere(node.model, shift, key);
      return node, false;
    }
    Parts(node, idx);
    assert CellIs(node.cells[idx], slots[idx]);
    match node.cells[idx] {
      case Sub(child) =>
        r, removed := WithoutChild(node, token, shift, idx, child, key);
      case KeyVal(k0, v0) =>
        if !Equiv(key, k0) {
          NotThere(node.model, shift, key);
          return node, false;
        }
        OnlyLeaf(k0, v0, shift + NODE_LOG_SIZE, key);
        SlotDropped(bitmap, slots, shift, key);
        r := EditAndRemovePair(node, token, shift, key, idx, slots);
        removed := true;
    }
  }

  /** The subtrie in cell `idx` of a bitmap node loses the key. */
  method WithoutChild(node: HeapNode, token: Token, shift: nat, idx: nat, child: HeapNode, key: Key)
    returns (r: HeapNode?, removed: bool)
    requires node.kind == BitmapKind && node.Valid(shift, Pre(key.hash, shift)) && node.Closed(token)
    requires Bit(node.bitmap, Mask(key.hash, shift)) &&
               idx == Rank(node.bitmap, Mask(key.hash, shift)) < PopCount(node.bitmap)
    requires idx < |node.cells| && node.cells[idx] == Sub(child)
    modifies set m | m in node.Repr && m.token == token
    ensures r != null ==> r.Shaped() && r.Closed(token) && fresh(r.Repr - old(node.Repr))
    ensures WithoutLaw(old(node.model), if r == null then None else Some(r.model), removed, shift, key)
    ensures r == null ==> removed
    decreases 40 - shift, 0
  {
    hide WithoutLaw, Find, HeapNode.KidsOk, Low;
    ghost var bitmap, slots := node.bitmap, node.model.slots;
    Parts(node, -1);
    SlotFor(bitmap, slots, shift, key);
    assert CellIs(node.cells[idx], slots[idx]);
    KidAt(node, idx, token);
    var n;
    n, removed := WithoutBelow(node, token, shift + NODE_LOG_SIZE, idx, child, key);
    if n != null {
      SlotShrunk(bitmap, slots, n.model, removed, shift, key);
      r := Rehang(node, token, idx, child, n, Bitmap(bitmap, slots[idx := Child(n.model)]));
      return;
    }
    OnlyChild(slots[idx].node, removed, shift + NODE_LOG_SIZE, key);
    SlotDropped(bitmap, slots, shift, key);
    r := EditAndRemovePair(node, token, shift, key, idx, slots);
  }

  /** The cells without the one at `idx`, and a spare one more. */
  function Dropped(cells: seq<Cell>, idx: nat): (r: seq<Cell>)
    requires idx < |cells|
    ensures |r| == |cells|
    ensures forall j | 0 <= j < |r| :: r[j] == if j < idx then cells[j] else if j + 1 < |cells| then cells[j + 1]
              else Empty
  {
    cells[..idx] + cells[idx + 1..] + [Empty]
  }

  /** `editAndRemovePair`: null with the last pair. */
  method EditAndRemovePair(node: HeapNode, token: Token, shift: nat, key: Key, idx: nat, ghost slots: seq<Slot>)
    returns (r: HeapNode?)
    requires node.kind == BitmapKind && node.KidsOk(idx) && node.Closed(token)
    requires Bit(node.bitmap, Mask(key.hash, shift)) && idx == Rank(node.bitmap, Mask(key.hash, shift)) &&
               node.bitmap < WORD
    requires |slots| == PopCount(node.bitmap) <= |node.cells| && idx < |slots|
    requires forall i | 0 <= i < |slots| && i != idx :: CellIs(node.cells[i], slots[i])
    requires forall i | |slots| <= i < |node.cells| :: node.cells[i].Empty?
    modifies if node.token == token then {node} else {}
    ensures r == null <==> old(node.bitmap) == BitPos(key.hash, shift)
    ensures r != null ==>
              && r.Shaped() && r.Closed(token) && fresh(r.Repr - old(node.Repr))
              && r.model == Bitmap(Xor(old(node.bitmap), BitPos(key.hash, shift)), Remove(slots, idx))
  {
    var bit := BitPos(key.hash, shift);
    if node.bitmap == bit { return null; }
    ghost var below, bitmap := node.Repr - {node}, node.bitmap;
    RemoveSlotCount(bitmap, Mask(key.hash, shift), shift);
    r := EnsureEditable(node, token);
    ghost var cells := r.cells;
    DroppedKids(cells, node, idx, below);
    ShiftDown(r, idx);
    DroppedCells(bitmap, Xor(bitmap, bit), cells, slots, idx);
    Update(r, r.cells, Xor(r.bitmap, bit), r.count, Bitmap(Xor(bitmap, bit), Remove(slots, idx)), below);
    ClosedOver(r, below, token);
  }

  /** The pairs behind `idx` move down by one cell and the last cell is cleared. */
  method ShiftDown(node: HeapNode, idx: nat)
    requires idx < |node.cells|
    modifies node`cells
    ensures node.cells == Dropped(old(node.cells), idx)
  {
    var j := idx;
    while j < |node.cells| - 1
      invariant idx <= j < |node.cells| == old(|node.cells|)
      invariant forall x | 0 <= x < |node.cells| ::
                  node.cells[x] == old(if idx <= x < j then node.cells[x + 1] else node.cells[x])
    {
      node.cells := node.cells[j := node.cells[j + 1]];
      j := j + 1;
    }
    node.cells := node.cells[|node.cells| - 1 := Empty];
  }

  /** The subtries left after cell `idx` of the node, or of its copy, is dropped. */
  lemma DroppedKids(cells: seq<Cell>, node: HeapNode, idx: nat, below: set<HeapNode>)
    requires node.KidsOk(idx) && idx < |cells| && idx < |node.cells| && below == node.Repr - {node}
    requires forall i | 0 <= i < |cells| && i != idx && cells[i].Sub? :: i < |node.cells| && cells[i] == node.cells[i]
    ensures KidsIn(Dropped(cells, idx), below)
  {
    var r := Dropped(cells, idx);
    forall i | 0 <= i < |r| && r[i].Sub? ensures r[i].node in below && r[i].node.Repr <= below && r[i].node.Shaped() {
      assert cells[if i < idx then i else i + 1] == r[i];
    }
    forall i, j | 0 <= i < j < |r| && r[i].Sub? && r[j].Sub? ensures r[i].node.Repr !! r[j].node.Repr {
      var a, b := if i < idx then i else i + 1, if j < idx then j else j + 1;
      assert cells[a] == r[i] && cells[b] == r[j] && a < b;
    }
  }

  lemma DroppedCells(bitmap: nat, bitmap': nat, cells: seq<Cell>, slots: seq<Slot>, idx: nat)
    requires |slots| == PopCount(bitmap) <= |cells| && idx < |slots| && PopCount(bitmap') == PopCount(bitmap) - 1
    requires forall i | 0 <= i < |slots| && i != idx :: CellIs(cells[i], slots[i])
    requires forall i | |slots| <= i < |cells| :: cells[i].Empty?
    ensures CellsAre(BitmapKind, 0, bitmap', 0, Dropped(cells, idx), Bitmap(bitmap', Remove(slots, idx)))
  {
    var r, s := Dropped(cells, idx), Remove(slots, idx);
    forall i | 0 <= i < PopCount(bitmap') ensures CellIs(r[i], s[i]) {
      assert CellIs(cells[if i < idx then i else i + 1], slots[if i < idx then i else i + 1]);
    }
  }

  method WithoutArray(node: HeapNode, token: Token, shift: nat, key: Key) returns (r: HeapNode?, removed: bool)
    requires node.kind == ArrayKind && node.Valid(shift, Pre(key.hash, shift)) && node.Closed(token)
    modifies set m | m in node.Repr && m.token == token
    ensures r != null && r.Shaped() && r.Closed(token) && fresh(r.Repr - old(node.Repr))
    ensures WithoutLaw(old(node.model), Some(r.model), removed, shift, key)
    decreases 40 - shift, 1
  {
    hide WithoutLaw, Find, Low, Pow2, Shr;
    var idx := Mask(key.hash, shift);
    ghost var count, nodes := node.model.count, node.model.nodes;
    Parts(node, -1);
    PreStep(key.hash, shift, Pre(key.hash, shift), idx);
    FindInArray(count, nodes, shift, key);
    if node.cells[idx].Empty? {
      NotThere(node.model, shift, key);
      return node, false;
    }
    var child := node.cells[idx].node;
    KidAt(node, idx, token);
    var n;
    n, removed := WithoutBelow(node, token, shift + NODE_LOG_SIZE, idx, child, key);
    if n != null {
      CellShrunk(count, nodes, Some(n.model), removed, shift, key, Array(count, nodes[idx := Some(n.model)]));
      r := Rehang(node, token, idx, child, n, Array(count, nodes[idx := Some(n.model)]));
    } else if node.count <= NODE_SIZE / 4 {
      ghost var p := HamtPack(nodes, idx);
      CellShrunk(count, nodes, None, removed, shift, key, Bitmap(p.bitmap, p.slots));
      r := PackNode(node, token, idx, nodes);
    } else {
      CellShrunk(count, nodes, None, removed, shift, key, Array(count - 1, nodes[idx := None]));
      r := ClearCell(node, token, idx, nodes);
    }
  }

  ghost function HamtPack(nodes: seq<Option<Node>>, idx: nat): Packed
    requires |nodes| == NODE_SIZE
  {
    Pack(nodes, idx, NODE_SIZE)
  }

  /** The cell `idx` of an array node is cleared. */
  method ClearCell(node: HeapNode, token: Token, idx: nat, ghost nodes: seq<Option<Node>>) returns (r: HeapNode)
    requires node.kind == ArrayKind && node.KidsOk(idx) && node.Closed(token) && node.count > 0
    requires |node.cells| == NODE_SIZE == |nodes| && idx < NODE_SIZE
    requires forall i | 0 <= i < NODE_SIZE && i != idx ::
               !node.cells[i].KeyVal? && nodes[i] == if node.cells[i].Sub? then Some(node.cells[i].node.model) else None
    modifies if node.token == token then {node} else {}
    ensures r.Shaped() && r.Closed(token) && fresh(r.Repr - old(node.Repr))
    ensures r.model == Array(old(node.count) - 1, nodes[idx := None])
  {
    ghost var below := node.Repr - {node};
    r := EnsureEditable(node, token);
    var cells := r.cells[idx := Empty];
    assert KidsIn(cells, below);
    Update(r, cells, r.bitmap, r.count - 1, Array(r.count - 1, nodes[idx := None]), below);
    ClosedOver(r, below, token);
  }

  /** `pack`: a bitmap node of the children but the one in cell `idx`. */
  method PackNode(node: HeapNode, token: Token, idx: nat, ghost nodes: seq<Option<Node>>) returns (r: HeapNode)
    requires node.kind == ArrayKind && node.KidsOk(idx) && node.Closed(token)
    requires |node.cells| == NODE_SIZE == |nodes| && idx < NODE_SIZE
    requires forall i | 0 <= i < NODE_SIZE && i != idx ::
               !node.cells[i].KeyVal? && nodes[i] == if node.cells[i].Sub? then Some(node.cells[i].node.model) else None
    ensures r.Shaped() && r.Closed(token) && fresh(r.Repr - node.Repr)
    ensures r.model == Bitmap(HamtPack(nodes, idx).bitmap, HamtPack(nodes, idx).slots)
  {
    hide Packing, Pack, CellsAre, KidsIn;
    var bitmap, cells := 0, [];
    ghost var from: seq<nat> := [];
    PackStart(node, nodes, idx);
    var i := 0;
    while i < idx
      invariant i <= idx && Packing(node, nodes, idx, i, bitmap, cells, from)
    {
      PackStep(node, nodes, idx, i, bitmap, cells, from);
      if node.cells[i].Sub? {
        cells, bitmap, from := cells + [node.cells[i]], Or(bitmap, Pow2(i)), from + [i];
      }
      i := i + 1;
    }
    PackStep(node, nodes, idx, i, bitmap, cells, from);
    i := idx + 1;
    while i < NODE_SIZE
      invariant idx < i <= NODE_SIZE && Packing(node, nodes, idx, i, bitmap, cells, from)
    {
      PackStep(node, nodes, idx, i, bitmap, cells, from);
      if node.cells[i].Sub? {
        cells, bitmap, from := cells + [node.cells[i]], Or(bitmap, Pow2(i)), from + [i];
      }
      i := i + 1;
    }
    PackDone(node, nodes, idx, bitmap, cells, from);
    ghost var below := node.Repr - {node};
    r := new HeapNode(token, BitmapKind, 0, bitmap, 0, cells, Bitmap(bitmap, HamtPack(nodes, idx).slots), below);
    PackShaped(r, below);
    ClosedOver(r, below, token);
  }

  lemma PackShaped(r: HeapNode, below: set<HeapNode>)
    requires KidsIn(r.cells, below) && r !in below && r.Repr == below + {r}
    requires CellsAre(r.kind, r.hash, r.bitmap, r.count, r.cells, r.model)
    ensures r.Shaped()
  {
  }

  lemma PackStart(node: HeapNode, nodes: seq<Option<Node>>, idx: nat)
    ensures Packing(node, nodes, idx, 0, 0, [], [])
  {
  }

  lemma PackStep(node: HeapNode, nodes: seq<Option<Node>>, idx: nat, i: nat, bitmap: nat, cells: seq<Cell>,
                 from: seq<nat>)
    requires |node.cells| == NODE_SIZE == |nodes| && i < NODE_SIZE && Packing(node, nodes, idx, i, bitmap, cells, from)
    requires i != idx ==>
               !node.cells[i].KeyVal? && nodes[i] == if node.cells[i].Sub? then Some(node.cells[i].node.model) else None
    ensures if i != idx && node.cells[i].Sub?
            then Packing(node, nodes, idx, i + 1, Or(bitmap, Pow2(i)), cells + [node.cells[i]], from + [i])
            else Packing(node, nodes, idx, i + 1, bitmap, cells, from)
  {
  }

  lemma PackDone(node: HeapNode, nodes: seq<Option<Node>>, idx: nat, bitmap: nat, cells: seq<Cell>, from: seq<nat>)
    requires node.KidsOk(idx) && |nodes| == NODE_SIZE && Packing(node, nodes, idx, NODE_SIZE, bitmap, cells, from)
    ensures KidsIn(cells, node.Repr - {node})
    ensures CellsAre(BitmapKind, 0, bitmap, 0, cells, Bitmap(bitmap, HamtPack(nodes, idx).slots))
    ensures bitmap == HamtPack(nodes, idx).bitmap
  {
    hide Pack;
    PackBits(nodes, idx, NODE_SIZE);
  }

  /** The first `n` cells of an array node, but for `idx`, are packed; pair `x` came from cell `from[x]`. */
  ghost predicate Packing(node: HeapNode, nodes: seq<Option<Node>>, idx: nat, n: nat, bitmap: nat, cells: seq<Cell>,
                          from: seq<nat>)
    requires n <= |nodes|
    reads node, set i | 0 <= i < |node.cells| && node.cells[i].Sub? :: node.cells[i].node
  {
    && bitmap == Pack(nodes, idx, n).bitmap && |cells| == |Pack(nodes, idx, n).slots| == |from|
    && (forall x | 0 <= x < |from| ::
          from[x] < n && from[x] != idx && from[x] < |node.cells| && node.cells[from[x]].Sub? &&
          cells[x] == node.cells[from[x]] && Pack(nodes, idx, n).slots[x] == Child(node.cells[from[x]].node.model))
    && (forall x, y | 0 <= x < y < |from| :: from[x] < from[y])
  }

  method WithoutCollision(node: HeapNode, token: Token, shift: nat, key: Key) returns (r: HeapNode?, removed: bool)
    requires node.kind == CollisionKind && node.Valid(shift, Pre(key.hash, shift)) && node.Closed(token)
    modifies set m | m in node.Repr && m.token == token
    ensures r != null ==> r.Shaped() && r.Closed(token) && fresh(r.Repr - old(node.Repr))
    ensures WithoutLaw(old(node.model), if r == null then None else Some(r.model), removed, shift, key)
    ensures r == null ==> removed
    decreases 40 - shift, 1
  {
    hide WithoutLaw;
    ghost var entries := node.model.entries;
    Parts(node, -1);
    var idx := FindCell(node.cells, key, entries);
    if idx == -1 {
      NotThere(node.model, shift, key);
      return node, false;
    }
    EntryDropped(node.hash, entries, shift, key);
    if node.count == 1 { return null, true; }
    r := DropEntry(node, token, idx);
    removed := true;
  }

  /** The last entry of a collision node takes the place of the one at `idx`. */
  method DropEntry(node: HeapNode, token: Token, idx: nat) returns (r: HeapNode)
    requires node.kind == CollisionKind && node.Shaped() && node.Closed(token) && idx < node.count
    modifies if node.token == token then {node} else {}
    ensures r.Shaped() && r.Closed(token) && fresh(r.Repr - old(node.Repr)) && old(node.model).Collision?
    ensures idx < |old(node.model).entries| && r.model == Collision(node.hash, SwapOut(old(node.model).entries, idx))
  {
    Parts(node, -1);
    ghost var below, entries := node.Repr - {node}, node.model.entries;
    var last := node.count - 1;
    r := EnsureEditable(node, token);
    var cells := r.cells[idx := r.cells[last]][last := Empty];
    ghost var rest := SwapOut(entries, idx);
    assert forall i | 0 <= i < last :: cells[i] == KeyVal(rest[i].key, rest[i].val);
    Update(r, cells, r.bitmap, last, Collision(node.hash, rest), below);
    ClosedOver(r, below, token);
  }
}
