/** The path nodes of the locals-clearing analysis and their deepest common ancestor
    (src/Compiler.c:132-168). */
module PathNodes {
  import opened Wrappers

  datatype PathType = PATH | BRANCH

  /** A path node never changes once made, so it is a value; `stamp`, the time of its allocation,
      tells apart nodes allocated separately. */
  datatype PathNode = PathNode(stamp: nat, kind: PathType, parent: Option<PathNode>)

  /** `a` is `p` or one of its ancestors. */
  predicate OnPath(a: PathNode, p: Option<PathNode>) {
    p.Some? && (a == p.value || OnPath(a, p.value.parent))
  }

  function FwdPath(p: Option<PathNode>): (path: seq<PathNode>) {
    if p.None? then [] else FwdPath(p.value.parent) + [p.value]
  }

  /** `c` is the deepest node above both. */
  ghost predicate DeepestCommon(c: PathNode, n1: Option<PathNode>, n2: Option<PathNode>) {
    OnPath(c, n1) && OnPath(c, n2) && forall a: PathNode :: OnPath(a, n1) && OnPath(a, n2) ==> OnPath(a, Some(c))
  }

  // ---- Paths ----

  function Depth(p: Option<PathNode>): nat {
    if p.None? then 0 else Depth(p.value.parent) + 1
  }

  lemma {:induction false} OnPathDepth(a: PathNode, p: Option<PathNode>)
    requires OnPath(a, p)
    ensures Depth(Some(a)) <= Depth(p) && (Depth(Some(a)) == Depth(p) ==> p == Some(a))
  {
    if a != p.value { OnPathDepth(a, p.value.parent); }
  }

  lemma {:induction false} OnPathTransitive(a: PathNode, b: PathNode, p: Option<PathNode>)
    requires OnPath(a, Some(b)) && OnPath(b, p)
    ensures OnPath(a, p)
  {
    if b != p.value { OnPathTransitive(a, b, p.value.parent); }
  }

  lemma DeepestUnique(c: PathNode, c': PathNode, n1: Option<PathNode>, n2: Option<PathNode>)
    requires DeepestCommon(c, n1, n2) && DeepestCommon(c', n1, n2)
    ensures c == c'
  {
    OnPathDepth(c, Some(c'));
    OnPathDepth(c', Some(c));
  }

  /** The forward path lists the ancestors from the root down: each with its own forward path before it. */
  lemma {:induction false} FwdPathAt(p: Option<PathNode>, i: nat)
    requires i < |FwdPath(p)|
    ensures FwdPath(Some(FwdPath(p)[i])) == FwdPath(p)[..i + 1] && OnPath(FwdPath(p)[i], p)
  {
    var path := FwdPath(p.value.parent);
    if i < |path| { FwdPathAt(p.value.parent, i); }
  }

  lemma {:induction false} OnPathListed(a: PathNode, p: Option<PathNode>)
    requires OnPath(a, p)
    ensures 0 < Depth(Some(a)) <= |FwdPath(p)| && FwdPath(p)[Depth(Some(a)) - 1] == a
  {
    FwdPathLength(p);
    if a != p.value { OnPathListed(a, p.value.parent); }
  }

  lemma {:induction false} FwdPathLength(p: Option<PathNode>)
    ensures |FwdPath(p)| == Depth(p)
  {
    if p.Some? { FwdPathLength(p.value.parent); }
  }

  method ForwardPath(p: Option<PathNode>) returns (path: seq<PathNode>)
    ensures path == FwdPath(p)
  {
    path := [];
    var q := p;
    while q.Some?
      invariant FwdPath(p) == FwdPath(q) + path
      decreases q
    {
      path := [q.value] + path;
      q := q.value.parent;
    }
  }

  /** The last node of the longest common prefix of two forward paths is above both nodes, and every
      node above both is above it. */
  lemma PrefixIsDeepest(n1: Option<PathNode>, n2: Option<PathNode>, i: nat)
    requires i < |FwdPath(n1)| && i < |FwdPath(n2)| && FwdPath(n1)[i] == FwdPath(n2)[i]
    requires i + 1 < |FwdPath(n1)| && i + 1 < |FwdPath(n2)| ==> FwdPath(n1)[i + 1] != FwdPath(n2)[i + 1]
    ensures DeepestCommon(FwdPath(n1)[i], n1, n2)
  {
    var s1, s2 := FwdPath(n1), FwdPath(n2);
    FwdPathAt(n1, i);
    FwdPathAt(n2, i);
    forall a: PathNode | OnPath(a, n1) && OnPath(a, n2) ensures OnPath(a, Some(s1[i])) {
      OnPathListed(a, n1);
      OnPathListed(a, n2);
      var j := Depth(Some(a)) - 1;
      if j > i {
        FwdPathAt(n1, j);
        FwdPathAt(n2, j);
        assert false;
      }
      FwdPathAt(Some(s1[i]), j);
    }
  }

  /** `commonPath`: the deepest common ancestor, or none when the roots differ. */
  method CommonPath(n1: Option<PathNode>, n2: Option<PathNode>) returns (common: Option<PathNode>)
    ensures common.Some? ==> DeepestCommon(common.value, n1, n2)
    ensures common.None? ==> forall a: PathNode :: !(OnPath(a, n1) && OnPath(a, n2))
  {
    var s1 := ForwardPath(n1);
    var s2 := ForwardPath(n2);
    if s1 == [] || s2 == [] || s1[0] != s2[0] {
      forall a: PathNode ensures !(OnPath(a, n1) && OnPath(a, n2)) {
        if OnPath(a, n1) && OnPath(a, n2) { SameRoot(a, n1, n2); }
      }
      return None;
    }
    var i := 0;
    while i + 1 < |s1| && i + 1 < |s2| && s1[i + 1] == s2[i + 1]
      invariant i < |s1| && i < |s2| && s1[i] == s2[i]
    {
      i := i + 1;
    }
    PrefixIsDeepest(n1, n2, i);
    return Some(s1[i]);
  }

  lemma SameRoot(a: PathNode, n1: Option<PathNode>, n2: Option<PathNode>)
    requires OnPath(a, n1) && OnPath(a, n2)
    ensures FwdPath(n1) != [] && FwdPath(n2) != [] && FwdPath(n1)[0] == FwdPath(n2)[0]
  {
    OnPathListed(a, n1);
    OnPathListed(a, n2);
    FwdPathAt(n1, Depth(Some(a)) - 1);
    FwdPathAt(n2, Depth(Some(a)) - 1);
    assert FwdPath(n1)[..Depth(Some(a))][0] == FwdPath(n2)[..Depth(Some(a))][0];
  }
}
