/** Persistent and transient maps on the heap (src/Map.cpp:1252-1385). */
module TransientMap {
  import opened Wrappers
  import opened HamtNodes
  import opened Hamt
  import opened HamtLaws
  import opened HamtEdits
  import opened HamtMap
  import opened TransientTrie

  /** `LMap`: `nullValue` is present when the null key is. */
  class LMap {
    const count: int
    const root: HeapNode?
    const nullValue: Option<Val>

    constructor (count: int, root: HeapNode?, nullValue: Option<Val>)
      ensures this.count == count && this.root == root && this.nullValue == nullValue
    {
      this.count, this.root, this.nullValue := count, root, nullValue;
    }

    ghost predicate Valid()
      reads if root != null then {root} + root.Repr else {}
    {
      root != null ==> root.Valid(0, 0)
    }

    ghost function AsMap(): HashMap
      reads root
    {
      HashMap(count, if root == null then None else Some(root.model), nullValue)
    }
  }

  /** `TransientMap`: the token is NOEDIT once the transient has been made persistent. */
  class TransientMap {
    var token: Token?
    var count: int
    var root: HeapNode?
    var nullValue: Option<Val>

    /** `asTransient`, under a token of its own. */
    constructor (map_: LMap)
      requires map_.Valid()
      ensures Valid() && token != NOEDIT && AsMap() == map_.AsMap() && root == map_.root
      ensures Owned() == {}
    {
      var own := new Token();
      token, count, root, nullValue := own, map_.count, map_.root, map_.nullValue;
      new;
      if root != null { Parts(root, -1); }
    }

    ghost predicate Valid()
      reads this, if root != null then {root} + root.Repr else {}
    {
      root != null ==> root.Valid(0, 0) && (token != NOEDIT ==> root.Closed(token))
    }

    ghost function AsMap(): HashMap
      reads this, root
    {
      HashMap(count, if root == null then None else Some(root.model), nullValue)
    }

    ghost function Owned(): set<HeapNode>
      reads this, root
    {
      if root == null || token == NOEDIT then {} else set n | n in root.Repr && n.token == token
    }

    /** `assoc`: false, and no change, if the transient was made persistent before. */
    method Assoc(key: Option<Key>, val: Val, ghost m: Model) returns (ok: bool)
      requires Valid() && Represents(AsMap(), m)
      modifies this, Owned()
      ensures ok <==> old(token) != NOEDIT
      ensures Valid() && token == old(token) && fresh(Owned() - old(Owned()))
      ensures Represents(AsMap(), if ok then ModelAssoc(m, key, val) else m)
    {
      hide Represents, AssocLaw, Find;
      ok := token != NOEDIT;
      if !ok { return; }
      ghost var before := AsMap();
      match key {
        case None =>
          if nullValue.None? { count := count + 1; }
          nullValue := Some(val);
          NullAssociated(before, AsMap(), m, val);
        case Some(k) =>
          ghost var model := if root == null then EmptyBMINode else root.model;
          var n: HeapNode, leafFlag: bool;
          RepresentsValid(before, m);
          if root == null {
            n := AssocEmpty(token, 0, k, val);
            leafFlag := true;
          } else {
            n, leafFlag := TransientTrie.Assoc(root, token, 0, k, val);
          }
          root := n;
          if leafFlag { count := count + 1; }
          LawAssociates(before, AsMap(), m, k, val, leafFlag);
          LawValid(model, n.model, leafFlag, k, val);
      }
    }

    /** `without` */
    method Without(key: Option<Key>, ghost m: Model) returns (ok: bool)
      requires Valid() && Represents(AsMap(), m)
      modifies this, Owned()
      ensures ok <==> old(token) != NOEDIT
      ensures Valid() && token == old(token) && fresh(Owned() - old(Owned()))
      ensures Represents(AsMap(), if ok then ModelWithout(m, key) else m)
    {
      hide Represents, WithoutLaw, Find;
      ok := token != NOEDIT;
      if !ok { return; }
      ghost var before := AsMap();
      match key {
        case None =>
          if nullValue.Some? { count := count - 1; }
          nullValue := None;
          NullRemoved(before, AsMap(), m);
        case Some(k) =>
          if root == null {
            NothingRemoved(before, m, k);
            return;
          }
          ghost var model := root.model;
          RepresentsValid(before, m);
          var n, leafFlag := TransientTrie.Without(root, token, 0, k);
          root := n;
          if leafFlag { count := count - 1; }
          LawRemoves(before, AsMap(), m, k, leafFlag);
          LawLeaves(model, if n == null then None else Some(n.model), leafFlag, k);
      }
    }

    /** `persistent`: the nodes pass to the map; their token dies with the transient. */
    method AsPersistent() returns (map_: LMap?)
      requires Valid()
      modifies this
      ensures old(token) == NOEDIT <==> map_ == null
      ensures map_ != null ==> map_.Valid() && map_.AsMap() == old(AsMap()) && map_.root == old(root)
      ensures token == NOEDIT && Valid() && AsMap() == old(AsMap())
    {
      if token == NOEDIT { return null; }
      token := NOEDIT;
      map_ := new LMap(count, root, nullValue);
    }
  }

  lemma RepresentsValid(hm: HashMap, m: Model)
    requires Represents(hm, m)
    ensures ValidMap(hm)
  {
  }

  lemma LawValid(node: Node, node': Node, added: bool, key: Key, val: Val)
    requires AssocLaw(node, node', added, 0, key, val)
    ensures HamtNodes.Valid(node', 0, 0)
  {
  }

  lemma LawLeaves(node: Node, node': Option<Node>, removed: bool, key: Key)
    requires WithoutLaw(node, node', removed, 0, key)
    ensures node'.Some? ==> HamtNodes.Valid(node'.value, 0, 0)
  {
  }

  lemma NullAssociated(hm: HashMap, hm': HashMap, m: Model, val: Val)
    requires Represents(hm, m)
    requires hm' == HashMap(if hm.nullValue.Some? then hm.count else hm.count + 1, hm.root, Some(val))
    ensures Represents(hm', ModelAssoc(m, None, val))
  {
    AssocRepresents(hm, m, None, val);
  }

  lemma NullRemoved(hm: HashMap, hm': HashMap, m: Model)
    requires Represents(hm, m)
    requires hm' == HashMap(if hm.nullValue.Some? then hm.count - 1 else hm.count, hm.root, None)
    ensures Represents(hm', ModelWithout(m, None))
  {
    WithoutRepresents(hm, m, None);
  }

  lemma NothingRemoved(hm: HashMap, m: Model, key: Key)
    requires Represents(hm, m) && hm.root.None?
    ensures Represents(hm, ModelWithout(m, Some(key)))
  {
    WithoutRepresents(hm, m, Some(key));
  }

  /** A root that obeys the law of association represents the finite map with the key associated. */
  lemma LawAssociates(hm: HashMap, hm': HashMap, m: Model, key: Key, val: Val, added: bool)
    requires Represents(hm, m) && hm'.root.Some? && hm'.nullValue == hm.nullValue
    requires hm'.count == hm.count + if added then 1 else 0
    requires AssocLaw(if hm.root.Some? then hm.root.value else EmptyBMINode, hm'.root.value, added, 0, key, val)
    ensures Represents(hm', ModelAssoc(m, Some(key), val))
  {
    var node, m' := if hm.root.Some? then hm.root.value else EmptyBMINode, ModelAssoc(m, Some(key), val);
    assert EntryAt(hm, Some(key)) == if IdOf(Some(key)) in m then Some(m[IdOf(Some(key))]) else None;
    FindInEmpty(0, key);
    forall k: Option<Key> ensures EntryAt(hm', k) == if IdOf(k) in m' then Some(m'[IdOf(k)]) else None {
      assert EntryAt(hm, k) == if IdOf(k) in m then Some(m[IdOf(k)]) else None;
      if k.Some? {
        FindInEmpty(0, k.value);
        assert AssocAt(node, hm'.root.value, 0, key, val, k.value);
      }
    }
  }

  lemma LawRemoves(hm: HashMap, hm': HashMap, m: Model, key: Key, removed: bool)
    requires Represents(hm, m) && hm.root.Some? && hm'.nullValue == hm.nullValue
    requires hm'.count == hm.count - if removed then 1 else 0
    requires WithoutLaw(hm.root.value, hm'.root, removed, 0, key)
    ensures Represents(hm', ModelWithout(m, Some(key)))
  {
    hide Find, WithoutLaw, ModelKeys;
    RemovedKeys(hm.root.value, hm'.root, removed, key);
    OneLess(m, IdOf(Some(key)));
    KeysLeft(m, IdOf(Some(key)));
    assert EntryAt(hm, Some(key)) == if IdOf(Some(key)) in m then Some(m[IdOf(Some(key))]) else None;
    hide EntryAt;
    forall k: Option<Key>
      ensures EntryAt(hm', k) ==
                if IdOf(k) in ModelWithout(m, Some(key)) then Some(ModelWithout(m, Some(key))[IdOf(k)]) else None
    {
      EntryRemoved(hm, hm', m, key, k);
    }
  }

  lemma EntryRemoved(hm: HashMap, hm': HashMap, m: Model, key: Key, k: Option<Key>)
    requires ValidMap(hm) && ValidMap(hm') && hm.root.Some? && hm'.nullValue == hm.nullValue
    requires EntryAt(hm, k) == if IdOf(k) in m then Some(m[IdOf(k)]) else None
    requires forall k: Key :: (if hm'.root.Some? then Find(hm'.root.value, 0, k) else None) ==
                              if Equiv(key, k) then None else Find(hm.root.value, 0, k)
    ensures EntryAt(hm', k) ==
              if IdOf(k) in ModelWithout(m, Some(key)) then Some(ModelWithout(m, Some(key))[IdOf(k)]) else None
  {
    hide Find;
  }

  lemma KeysLeft(m: Model, id: Id)
    requires ModelKeys(m)
    ensures ModelKeys(m - {id})
  {
  }

  lemma OneLess(m: Model, id: Id)
    ensures |m - {id}| == if id in m then |m| - 1 else |m|
  {
    assert (m - {id}).Keys == m.Keys - {id};
    assert |m - {id}| == |(m - {id}).Keys| && |m| == |m.Keys|;
  }

  lemma RemovedKeys(node: Node, node': Option<Node>, removed: bool, key: Key)
    requires HamtNodes.Valid(node, 0, 0) && WithoutLaw(node, node', removed, 0, key)
    ensures node'.Some? ==> HamtNodes.Valid(node'.value, 0, 0)
    ensures removed <==> Find(node, 0, key).Some?
    ensures forall k: Key :: (if node'.Some? then Find(node'.value, 0, k) else None) ==
                             if Equiv(key, k) then None else Find(node, 0, k)
  {
    hide Find;
    forall k: Key ensures (if node'.Some? then Find(node'.value, 0, k) else None) ==
                             if Equiv(key, k) then None else Find(node, 0, k)
    {
      assert WithoutAt(node, node', 0, key, k);
    }
  }

  /** A whole run: the map is opened as a transient, changed by any operations, and closed again. The
      result is the finite map the same run of persistent operations gives, and, as nothing is listed
      as modified, the source map and every other map there is keep their contents. */
  method TransientRun(source: LMap, ops: seq<Op>, ghost m: Model) returns (result: LMap)
    requires source.Valid() && Represents(source.AsMap(), m)
    ensures source.Valid() && source.AsMap() == old(source.AsMap())
    ensures result.Valid() && Represents(result.AsMap(), ModelRun(m, ops))
    ensures forall hm | ValidMap(hm) && Represents(hm, m) :: Represents(Run(hm, ops), ModelRun(m, ops))
  {
    hide Represents, ModelAssoc, ModelWithout;
    var t := new TransientMap(source);
    ghost var now := m;
    var i := 0;
    while i < |ops|
      invariant i <= |ops| && ModelRun(now, ops[i..]) == ModelRun(m, ops)
      invariant t.Valid() && t.token != NOEDIT && Represents(t.AsMap(), now)
      invariant fresh(t) && fresh(t.Owned())
    {
      assert ops[i..][1..] == ops[i + 1..] && ops[i..][0] == ops[i];
      var ok: bool;
      match ops[i] {
        case AssocOp(key, val) =>
          ok := t.Assoc(key, val, now);
          now := ModelAssoc(now, key, val);
        case WithoutOp(key) =>
          ok := t.Without(key, now);
          now := ModelWithout(now, key);
      }
      i := i + 1;
    }
    assert ops[i..] == [];
    result := t.AsPersistent();
    forall hm | ValidMap(hm) && Represents(hm, m)
      ensures Represents(Run(hm, ops), ModelRun(m, ops)) { RunRepresents(hm, m, ops); }
  }

  /** One transient of a history: the map it starts from, by its number, and what is done to it. */
  datatype Transient = Transient(from: nat, ops: seq<Op>)

  predicate InOrder(history: seq<Transient>) {
    forall k | 0 <= k < |history| :: history[k].from <= k
  }

  /** The finite map that map number `k` of a history stands for: number 0 is `m`, number `k + 1` is
      what transient `k` leaves. */
  ghost function ModelAt(m: Model, history: seq<Transient>, k: nat): Model
    requires InOrder(history) && k <= |history|
    decreases k
  {
    if k == 0 then m else ModelRun(ModelAt(m, history, history[k - 1].from), history[k - 1].ops)
  }

  /** The map is in order and stands for `m`. */
  ghost predicate Holds(map_: LMap, m: Model)
    reads if map_.root != null then {map_.root} + map_.root.Repr else {}
  {
    map_.Valid() && Represents(map_.AsMap(), m)
  }

  /** A history of transients, each opened on any map made so far, including the results of others: at
      the end every one of the maps, the first and all the results, holds what it held when it was
      made. */
  method History(source: LMap, history: seq<Transient>, ghost m: Model) returns (maps: seq<LMap>)
    requires Holds(source, m) && InOrder(history)
    ensures |maps| == |history| + 1 && maps[0] == source
    ensures forall k | 0 <= k < |maps| :: Holds(maps[k], ModelAt(m, history, k))
  {
    hide Represents, ModelAt;
    FirstModel(m, history);
    maps := [source];
    var i := 0;
    while i < |history|
      invariant i <= |history| && |maps| == i + 1 && maps[0] == source
      invariant forall k | 0 <= k <= i :: Holds(maps[k], ModelAt(m, history, k))
    {
      var from := history[i].from;
      assert Holds(maps[from], ModelAt(m, history, from));
      var result := TransientRun(maps[from], history[i].ops, ModelAt(m, history, from));
      NextModel(m, history, i);
      assert Holds(result, ModelAt(m, history, i + 1));
      hide Holds;
      maps := maps + [result];
      i := i + 1;
    }
  }

  lemma FirstModel(m: Model, history: seq<Transient>)
    requires InOrder(history)
    ensures ModelAt(m, history, 0) == m
  {
  }

  lemma NextModel(m: Model, history: seq<Transient>, i: nat)
    requires InOrder(history) && i < |history|
    ensures ModelAt(m, history, i + 1) == ModelRun(ModelAt(m, history, history[i].from), history[i].ops)
  {
  }
}
