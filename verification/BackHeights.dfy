/** Heights in the backward graph (src/gc-7.2/backgraph.c:119-170, 359-398): the length of the longest
    chain of predecessors, found by a depth-first search that stores heights along the way. */
module BackHeights {
  import opened BackEdges

  type Graph = map<Obj, seq<Obj>>

  /** Every predecessor is an object of the graph. */
  ghost predicate Whole(preds: Graph) {
    forall o, q | o in preds && q in preds[o] :: q in preds
  }

  /** `rank` numbers the objects along the edges: the graph has no cycle. */
  ghost predicate Ranked(preds: Graph, rank: map<Obj, nat>) {
    Whole(preds) && preds.Keys <= rank.Keys && forall o, q | o in preds && q in preds[o] :: rank[q] < rank[o]
  }

  /** The height of an object in a graph without cycles: one more than that of its highest predecessor,
      and at least its remembered height. */
  ghost function Longest(preds: Graph, least: map<Obj, nat>, rank: map<Obj, nat>, o: Obj): nat
    requires Ranked(preds, rank) && o in preds && preds.Keys <= least.Keys
    decreases rank[o], |preds[o]| + 1
  {
    LongestOver(preds, least, rank, o, |preds[o]|)
  }

  /** ... as far as the first `k` predecessors go. */
  ghost function LongestOver(preds: Graph, least: map<Obj, nat>, rank: map<Obj, nat>, o: Obj, k: nat): nat
    requires Ranked(preds, rank) && o in preds && preds.Keys <= least.Keys && k <= |preds[o]|
    decreases rank[o], k
  {
    if k == 0 then least[o]
    else
      var q := preds[o][k - 1];
      assert q in preds[o];
      Max(LongestOver(preds, least, rank, o, k - 1), Longest(preds, least, rank, q) + 1)
  }

  function Max(a: nat, b: nat): nat {
    if a >= b then a else b
  }

  /** A chain of predecessors, each one before the next. */
  ghost predicate Chain(preds: Graph, path: seq<Obj>) {
    (forall i | 0 <= i < |path| :: path[i] in preds) && forall i | 0 < i < |path| :: path[i - 1] in preds[path[i]]
  }

  /** What a chain contributes to the height of its last object. */
  ghost function Length(least: map<Obj, nat>, path: seq<Obj>): nat
    requires path != [] && path[0] in least
  {
    |path| - 1 + least[path[0]]
  }

  lemma {:induction false} LongestOverAtLeast(preds: Graph, least: map<Obj, nat>, rank: map<Obj, nat>, o: Obj, k: nat,
                                              i: nat)
    requires Ranked(preds, rank) && o in preds && preds.Keys <= least.Keys && i <= k <= |preds[o]|
    ensures LongestOver(preds, least, rank, o, k) >= LongestOver(preds, least, rank, o, i)
    ensures i < k ==>
              preds[o][i] in preds &&
                LongestOver(preds, least, rank, o, k) >= Longest(preds, least, rank, preds[o][i]) + 1
    decreases k
  {
    if i < k {
      assert preds[o][i] in preds[o];
      LongestOverAtLeast(preds, least, rank, o, k - 1, i);
    }
  }

  /** No chain is longer than the height of its last object. */
  lemma {:induction false} ChainAtMost(preds: Graph, least: map<Obj, nat>, rank: map<Obj, nat>, path: seq<Obj>)
    requires Ranked(preds, rank) && preds.Keys <= least.Keys && path != [] && Chain(preds, path)
    ensures Length(least, path) <= Longest(preds, least, rank, path[|path| - 1])
    decreases |path|
  {
    var n := |path| - 1;
    var o := path[n];
    if n == 0 {
      LongestOverAtLeast(preds, least, rank, o, |preds[o]|, 0);
    } else {
      var shorter := path[..n];
      forall i | 0 < i < |shorter| ensures shorter[i - 1] in preds[shorter[i]] { assert path[i - 1] in preds[path[i]]; }
      ChainAtMost(preds, least, rank, shorter);
      assert path[n - 1] in preds[path[n]];
      var i :| 0 <= i < |preds[o]| && preds[o][i] == path[n - 1];
      LongestOverAtLeast(preds, least, rank, o, |preds[o]|, i);
    }
  }

  /** Some chain is as long. */
  lemma {:induction false} LongestChain(preds: Graph, least: map<Obj, nat>, rank: map<Obj, nat>, o: Obj, k: nat)
    returns (path: seq<Obj>)
    requires Ranked(preds, rank) && o in preds && preds.Keys <= least.Keys && k <= |preds[o]|
    ensures path != [] && path[|path| - 1] == o && Chain(preds, path)
    ensures Length(least, path) == LongestOver(preds, least, rank, o, k)
    decreases rank[o], k
  {
    if k == 0 {
      path := [o];
    } else {
      var q := preds[o][k - 1];
      assert q in preds[o];
      if LongestOver(preds, least, rank, o, k - 1) >= Longest(preds, least, rank, q) + 1 {
        path := LongestChain(preds, least, rank, o, k - 1);
      } else {
        var shorter := LongestChain(preds, least, rank, q, |preds[q]|);
        path := shorter + [o];
        forall i | 0 < i < |path| ensures path[i - 1] in preds[path[i]] {
          if i < |shorter| { assert shorter[i - 1] in preds[shorter[i]]; }
        }
      }
    }
  }

  /** The height of an object is the greatest length of a chain that ends in it; with no height
      remembered, the number of objects on the longest one. */
  lemma HeightIsLongest(preds: Graph, least: map<Obj, nat>, rank: map<Obj, nat>, o: Obj, h: nat)
    requires Ranked(preds, rank) && o in preds && preds.Keys <= least.Keys
    ensures h == Longest(preds, least, rank, o) <==>
              && (exists path :: path != [] && path[|path| - 1] == o && Chain(preds, path) && Length(least, path) == h)
              && (forall path | path != [] && path[|path| - 1] == o && Chain(preds, path) :: Length(least, path) <= h)
  {
    var best := LongestChain(preds, least, rank, o, |preds[o]|);
    forall path: seq<Obj> | path != [] && path[|path| - 1] == o && Chain(preds, path)
      ensures Length(least, path) <= Longest(preds, least, rank, o)
    {
      ChainAtMost(preds, least, rank, path);
    }
  }

  // ---- The search ----

  /** The heights in the structures of the graph, with the cycle they were found in. */
  type Heights = map<Obj, (int, nat)>

  /** Objects on the search path: those with one predecessor are in a list, the others have their height
      set to `HEIGHT_IN_PROGRESS`. */
  ghost function Stack(preds: Graph, heights: Heights, inProgress: seq<Obj>): set<Obj> {
    set o | o in preds && (o in inProgress || (o in heights && heights[o].0 == HEIGHT_IN_PROGRESS))
  }

  predicate IsCurrent(height: int, heightGcNo: nat, gcNo: nat) {
    height >= 0 && heightGcNo == gcNo % 0x1_0000
  }

  /** A height found in this cycle is right, and `least` has one remembered from an earlier cycle. */
  ghost predicate RightAt(preds: Graph, least: map<Obj, nat>, rank: map<Obj, nat>, gcNo: nat, heights: Heights, o: Obj)
    requires Ranked(preds, rank) && preds.Keys <= least.Keys && o in preds
  {
    if o !in heights then least[o] == 1
    else if IsCurrent(heights[o].0, heights[o].1, gcNo) then heights[o].0 == Longest(preds, least, rank, o)
    else heights[o].0 == HEIGHT_IN_PROGRESS || least[o] == if heights[o].0 > 0 then heights[o].0 else 1
  }

  ghost predicate Right(preds: Graph, least: map<Obj, nat>, rank: map<Obj, nat>, gcNo: nat, heights: Heights)
    requires Ranked(preds, rank) && preds.Keys <= least.Keys
  {
    forall o | o in preds :: RightAt(preds, least, rank, gcNo, heights, o)
  }

  /** The search path comes down along the ranks to `p`. */
  ghost predicate Below(rank: map<Obj, nat>, stack: set<Obj>, p: Obj) {
    p in rank && forall o | o in stack :: o in rank && rank[p] < rank[o]
  }

  /** Heights are unknown, in progress or positive. */
  ghost predicate Plain(heights: Heights) {
    forall o | o in heights :: heights[o].0 > 0 || heights[o].0 == HEIGHT_UNKNOWN || heights[o].0 == HEIGHT_IN_PROGRESS
  }

  lemma Pushed(preds: Graph, heights: Heights, inProgress: seq<Obj>, p: Obj)
    requires p in preds
    ensures Stack(preds, heights, inProgress + [p]) == Stack(preds, heights, inProgress) + {p}
  {
  }

  lemma Started(preds: Graph, heights: Heights, inProgress: seq<Obj>, p: Obj, gc: nat)
    requires p in preds && p in heights
    ensures Stack(preds, heights[p := (HEIGHT_IN_PROGRESS, gc)], inProgress) == Stack(preds, heights, inProgress) + {p}
  {
  }

  lemma Finished(preds: Graph, heights: Heights, inProgress: seq<Obj>, p: Obj, height: nat, gc: nat)
    requires p in heights && p !in inProgress
    ensures Stack(preds, heights[p := (height, gc)], inProgress) == Stack(preds, heights, inProgress) - {p}
  {
  }

  /** On the way down to a predecessor of `p`. */
  lemma StepBelow(preds: Graph, rank: map<Obj, nat>, stack: set<Obj>, p: Obj, q: Obj)
    requires Ranked(preds, rank) && p in preds && q in preds[p] && Below(rank, stack, p)
    ensures Below(rank, stack + {p}, q)
  {
  }

  lemma FewerLeft(all: set<Obj>, done: set<Obj>, x: Obj)
    requires x in all && x !in done
    ensures |all - (done + {x})| < |all - done|
  {
    assert all - (done + {x}) == all - done - {x};
  }

  /** The height `h` of `o` is the length of some chain. */
  ghost predicate Explained(preds: Graph, least: map<Obj, nat>, o: Obj, h: int)
    requires preds.Keys <= least.Keys
  {
    exists path :: path != [] && path[|path| - 1] == o && Chain(preds, path) && Length(least, path) == h
  }

  ghost predicate KnownAt(preds: Graph, least: map<Obj, nat>, heights: Heights, o: Obj)
    requires preds.Keys <= least.Keys && o in preds
  {
    if o in heights && heights[o].0 > 0 then Explained(preds, least, o, heights[o].0)
    else if o in heights && heights[o].0 == HEIGHT_IN_PROGRESS then true
    else least[o] == 1
  }

  /** Every height is the length of some chain; where none is known, `least` is one. */
  ghost predicate Known(preds: Graph, least: map<Obj, nat>, heights: Heights)
    requires preds.Keys <= least.Keys
  {
    forall o | o in preds :: KnownAt(preds, least, heights, o)
  }

  /** The remembered heights will do for `least`, whatever the graph. */
  lemma KnownAtStart(preds: Graph, heights: Heights)
    ensures var least := map o | o in preds :: if o in heights && heights[o].0 > 0 then heights[o].0 as nat else 1;
            Known(preds, least, heights)
  {
    var least: map<Obj, nat> := map o | o in preds :: if o in heights && heights[o].0 > 0 then heights[o].0 else 1;
    forall o | o in preds ensures KnownAt(preds, least, heights, o) { ExplainedAlone(preds, least, o); }
  }

  /** Heights found in this cycle stay. */
  ghost predicate Stable(before: Heights, after: Heights, gcNo: nat) {
    before.Keys == after.Keys &&
    forall o | o in before && IsCurrent(before[o].0, before[o].1, gcNo) :: after[o] == before[o]
  }

  lemma StableMore(a: Heights, b: Heights, c: Heights, gcNo: nat)
    requires Stable(a, b, gcNo) && Stable(b, c, gcNo)
    ensures Stable(a, c, gcNo)
  {
  }

  /** A search in between the start and the end of that of `p`. */
  lemma StableAround(before: Heights, started: Heights, visited: Heights, p: Obj, height: (int, nat), gcNo: nat)
    requires p in before && !IsCurrent(before[p].0, before[p].1, gcNo) && p in started
    requires started == before[p := started[p]] && Stable(started, visited, gcNo)
    ensures Stable(before, visited[p := height], gcNo)
  {
  }

  lemma VisitedFinished(preds: Graph, visited: Heights, path: set<Obj>, gcNo: nat, p: Obj, result: nat)
    requires p in preds && p in path && Visited(preds, visited, path, gcNo, p, |preds[p]|, result)
    ensures Visited(preds, visited[p := (result, gcNo % 0x1_0000)], path, gcNo, p, |preds[p]|, result)
  {
    forall i | 0 <= i < |preds[p]|
      ensures VisitedAt(visited[p := (result, gcNo % 0x1_0000)], path, gcNo, preds[p][i], result)
    {
      assert VisitedAt(visited, path, gcNo, preds[p][i], result);
    }
  }

  lemma VisitedNone(preds: Graph, heights: Heights, path: set<Obj>, gcNo: nat, o: Obj, h: int)
    requires o in preds
    ensures Visited(preds, heights, path, gcNo, o, 0, h) && Stable(heights, heights, gcNo)
  {
  }

  /** The object `q` is on the search path, keeps no height, or has one found in this cycle that is below `h`. */
  ghost predicate VisitedAt(heights: Heights, path: set<Obj>, gcNo: nat, q: Obj, h: int) {
    q in path || q !in heights || (IsCurrent(heights[q].0, heights[q].1, gcNo) && heights[q].0 < h)
  }

  /** So do the first `k` predecessors of `o`. */
  ghost predicate Visited(preds: Graph, heights: Heights, path: set<Obj>, gcNo: nat, o: Obj, k: nat, h: int)
    requires o in preds && k <= |preds[o]|
  {
    forall i | 0 <= i < k :: VisitedAt(heights, path, gcNo, preds[o][i], h)
  }

  /** A further predecessor has been searched: `h` is the height so far, `height` that of the predecessor. */
  lemma VisitedNext(preds: Graph, before: Heights, after: Heights, path: set<Obj>, gcNo: nat, o: Obj, k: nat, h: int,
                    height: nat)
    requires o in preds && k < |preds[o]| && Visited(preds, before, path, gcNo, o, k, h)
    requires Stable(before, after, gcNo)
    requires height == 0 <==> preds[o][k] in path
    requires height > 0 && preds[o][k] in after ==> after[preds[o][k]] == (height, gcNo % 0x1_0000)
    ensures Visited(preds, after, path, gcNo, o, k + 1, if height >= h then height + 1 else h)
  {
    var h' := if height >= h then height + 1 else h;
    forall i | 0 <= i < k + 1 ensures VisitedAt(after, path, gcNo, preds[o][i], h') {
      if i < k { assert VisitedAt(before, path, gcNo, preds[o][i], h); }
    }
  }

  lemma ExplainedAlone(preds: Graph, least: map<Obj, nat>, o: Obj)
    requires preds.Keys <= least.Keys && o in preds
    ensures Explained(preds, least, o, least[o])
  {
    assert [o] != [] && [o][|[o]| - 1] == o && Chain(preds, [o]) && Length(least, [o]) == least[o];
  }

  lemma ExplainedNext(preds: Graph, least: map<Obj, nat>, o: Obj, q: Obj, h: int)
    requires preds.Keys <= least.Keys && o in preds && q in preds[o] && Explained(preds, least, q, h)
    ensures Explained(preds, least, o, h + 1)
  {
    var shorter :| shorter != [] && shorter[|shorter| - 1] == q && Chain(preds, shorter) && Length(least, shorter) == h;
    var path := shorter + [o];
    forall i | 0 < i < |path| ensures path[i - 1] in preds[path[i]] {
      if i < |shorter| { assert shorter[i - 1] in preds[shorter[i]]; }
    }
    assert path != [] && path[|path| - 1] == o && Chain(preds, path) && Length(least, path) == h + 1;
  }

  lemma KnownStarted(preds: Graph, least: map<Obj, nat>, heights: Heights, p: Obj, gc: nat)
    requires preds.Keys <= least.Keys && Known(preds, least, heights) && p in heights && p in preds
    requires heights[p].0 > 0 || heights[p].0 == HEIGHT_UNKNOWN
    ensures Known(preds, least, heights[p := (HEIGHT_IN_PROGRESS, gc)])
    ensures Explained(preds, least, p, if heights[p].0 > 0 then heights[p].0 else 1)
  {
    hide Explained;
    assert KnownAt(preds, least, heights, p);
    ExplainedAlone(preds, least, p);
    forall o | o in preds ensures KnownAt(preds, least, heights[p := (HEIGHT_IN_PROGRESS, gc)], o) {
      assert KnownAt(preds, least, heights, o);
    }
  }

  lemma KnownFinished(preds: Graph, least: map<Obj, nat>, heights: Heights, p: Obj, h: nat, gc: nat)
    requires preds.Keys <= least.Keys && Known(preds, least, heights) && p in preds && h > 0
    requires Explained(preds, least, p, h)
    ensures Known(preds, least, heights[p := (h, gc)])
  {
    hide Explained;
    forall o | o in preds ensures KnownAt(preds, least, heights[p := (h, gc)], o) {
      assert KnownAt(preds, least, heights, o);
    }
  }

  class HeightSearch {
    const graph: BackGraph
    var inProgress: seq<Obj>

    constructor (graph: BackGraph)
      ensures this.graph == graph && inProgress == []
    {
      this.graph, inProgress := graph, [];
    }

    /** The graph has the predecessors `preds`; only objects with one predecessor are in the list. */
    ghost predicate Sane(preds: Graph)
      reads this, graph, graph.space
    {
      && graph.Valid() && graph.backPtr.Keys == preds.Keys && Whole(preds) && Plain(graph.Heights())
      && (forall o | o in preds :: graph.ObjectOk(o) && graph.Preds(o) == preds[o])
      && (forall o | o in inProgress :: o in preds && graph.backPtr[o].OnePred?)
      && forall o | o in preds :: o in graph.Heights() <==> graph.backPtr[o].ManyPreds?
    }

    ghost function Path(preds: Graph): set<Obj>
      reads this, graph, graph.space
    {
      Stack(preds, graph.Heights(), inProgress)
    }

    /** What holds on a graph without cycles when the search reaches `p`. */
    ghost predicate OnCourse(preds: Graph, least: map<Obj, nat>, rank: map<Obj, nat>, p: Obj)
      requires preds.Keys <= least.Keys
      reads this, graph, graph.space
    {
      Ranked(preds, rank) ==> Below(rank, Path(preds), p) && Right(preds, least, rank, graph.gcNo, graph.Heights())
    }

    /** ... and when it has found the height of `p`. */
    ghost predicate Found(preds: Graph, least: map<Obj, nat>, rank: map<Obj, nat>, p: Obj, result: nat)
      requires preds.Keys <= least.Keys && p in preds
      reads this, graph, graph.space
    {
      Ranked(preds, rank) ==>
        result == Longest(preds, least, rank, p) && Right(preds, least, rank, graph.gcNo, graph.Heights())
    }

    /** `backwards_height`. It ends on every graph: 0 says that `p` is on the search path. Otherwise the result
        is the length of some chain that ends in `p`, counted from what is remembered of its first object; it is
        kept if `p` has room for it, and where it was not known before it exceeds the heights kept for all
        predecessors of `p` that are not on the search path. On a graph without cycles it is the height of `p`. */
    method BackwardsHeight(p: Obj, ghost preds: Graph, ghost least: map<Obj, nat>, ghost rank: map<Obj, nat>)
        returns (result: nat)
      requires Sane(preds) && p in preds && preds.Keys <= least.Keys && OnCourse(preds, least, rank, p)
      requires Known(preds, least, graph.Heights())
      modifies this`inProgress, graph.space
      ensures Sane(preds) && inProgress == old(inProgress) && Path(preds) == old(Path(preds))
      ensures (result == 0 <==> p in old(Path(preds))) && Found(preds, least, rank, p, result)
      ensures Known(preds, least, graph.Heights()) && (result > 0 ==> Explained(preds, least, p, result))
      ensures Stable(old(graph.Heights()), graph.Heights(), graph.gcNo)
      ensures result > 0 && p in graph.Heights() ==> graph.Heights()[p] == (result, graph.gcNo % 0x1_0000)
      ensures result > 0 && !old(HasHeight(p)) ==>
                Visited(preds, graph.Heights(), Path(preds) + {p}, graph.gcNo, p, |preds[p]|, result)
      decreases |preds.Keys - Path(preds)|, 1
    {
      hide BackGraph.Valid, BackGraph.ObjectOk, Right, Longest, LongestOver, Whole, Known, Explained, Visited;
      KnownFacts(preds, least, p);
      VisitedNone(preds, graph.Heights(), Path(preds) + {p}, graph.gcNo, p, 1);
      FoundAtOnce(p, preds, least, rank);
      if graph.backPtr[p].NoPred? {
        result := 1;
      } else if graph.backPtr[p].OnePred? {
        if p in inProgress {
          result := 0;
        } else {
          result := ThroughOne(p, preds, least, rank);
        }
      } else {
        ManyOnPath(p, preds);
        var s := graph.space[graph.backPtr[p].be];
        if IsCurrent(s.height, s.heightGcNo, graph.gcNo) {
          result := s.height;
        } else if s.height == HEIGHT_IN_PROGRESS {
          result := 0;
        } else {
          result := ThroughMany(p, preds, least, rank);
        }
      }
    }

    method ThroughOne(p: Obj, ghost preds: Graph, ghost least: map<Obj, nat>, ghost rank: map<Obj, nat>)
        returns (result: nat)
      requires Sane(preds) && p in preds && preds.Keys <= least.Keys && OnCourse(preds, least, rank, p)
      requires Known(preds, least, graph.Heights())
      requires graph.backPtr[p].OnePred? && p !in inProgress
      modifies this`inProgress, graph.space
      ensures Sane(preds) && inProgress == old(inProgress) && Path(preds) == old(Path(preds))
      ensures result > 0 && p !in Path(preds) && Found(preds, least, rank, p, result)
      ensures Known(preds, least, graph.Heights()) && Explained(preds, least, p, result)
      ensures Stable(old(graph.Heights()), graph.Heights(), graph.gcNo)
      ensures p !in graph.Heights()
      ensures Visited(preds, graph.Heights(), Path(preds) + {p}, graph.gcNo, p, |preds[p]|, result)
      decreases |preds.Keys - Path(preds)|, 0
    {
      hide BackGraph.Valid, BackGraph.ObjectOk, Plain, Right, Whole, Stack, BackGraph.Heights, Sane, Known, Explained,
        Stable, Visited;
      InPointers(p, preds);
      KnownFacts(preds, least, p);
      var q := graph.backPtr[p].q;
      OnlyPred(p, q, preds);
      ghost var path := Path(preds);
      PushInProgress(p, preds);
      FewerLeft(preds.Keys, path, p);
      if Ranked(preds, rank) { StepBelow(preds, rank, path, p, q); }
      var height := BackwardsHeight(q, preds, least, rank);
      result := height + 1;
      PopInProgress(p, preds);
      OneExplained(preds, least, p, q, path, height);
      if Ranked(preds, rank) { OneHigher(preds, least, rank, graph.gcNo, graph.Heights(), p, q); }
      assert (path + {p}) - {p} == path;
    }

    ghost predicate HasHeight(p: Obj)
      reads graph, graph.space
    {
      p in graph.Heights() && IsCurrent(graph.Heights()[p].0, graph.Heights()[p].1, graph.gcNo)
    }

    /** What is known of the height of `p`. */
    lemma KnownFacts(preds: Graph, least: map<Obj, nat>, p: Obj)
      requires Sane(preds) && p in preds && preds.Keys <= least.Keys && Known(preds, least, graph.Heights())
      ensures p !in graph.Heights() ==> least[p] == 1 && Explained(preds, least, p, 1)
      ensures p in graph.Heights() && graph.Heights()[p].0 > 0 ==>
                Explained(preds, least, p, graph.Heights()[p].0)
      ensures graph.backPtr[p].NoPred? ==> preds[p] == []
      ensures p !in graph.Heights() <==> !graph.backPtr[p].ManyPreds?
      ensures p in graph.Heights() && graph.Heights()[p].0 >= 0 ==> graph.Heights()[p].0 > 0
    {
      hide BackGraph.Valid, BackGraph.ObjectOk, Explained;
      assert KnownAt(preds, least, graph.Heights(), p);
      ExplainedAlone(preds, least, p);
      if graph.backPtr[p].NoPred? { assert graph.Preds(p) == []; }
    }

    /** An object with one predecessor `q` of height `height`, once it is off the path again. */
    lemma OneExplained(preds: Graph, least: map<Obj, nat>, p: Obj, q: Obj, path: set<Obj>, height: nat)
      requires p in preds && preds[p] == [q] && preds.Keys <= least.Keys && least[p] == 1
      requires height > 0 ==> Explained(preds, least, q, height)
      requires height == 0 <==> q in path + {p}
      requires height > 0 && q in graph.Heights() ==> graph.Heights()[q] == (height, graph.gcNo % 0x1_0000)
      ensures Explained(preds, least, p, height + 1)
      ensures Visited(preds, graph.Heights(), path + {p}, graph.gcNo, p, |preds[p]|, height + 1)
    {
      hide Explained;
      ExplainedAlone(preds, least, p);
      if height > 0 { ExplainedNext(preds, least, p, q, height); }
    }

    lemma InPointers(p: Obj, preds: Graph)
      requires Sane(preds) && p in preds
      ensures p in graph.backPtr && graph.ObjectOk(p) && graph.Preds(p) == preds[p] && Whole(preds)
    {
    }

    method PushInProgress(p: Obj, ghost preds: Graph)
      requires Sane(preds) && p in preds && graph.backPtr[p].OnePred? && p !in inProgress
      modifies this`inProgress
      ensures Sane(preds) && inProgress == old(inProgress) + [p]
      ensures p !in old(Path(preds)) && Path(preds) == old(Path(preds)) + {p} && p !in graph.Heights()
      ensures graph.Heights() == old(graph.Heights())
    {
      hide BackGraph.Valid, BackGraph.ObjectOk, Plain;
      Pushed(preds, graph.Heights(), inProgress, p);
      inProgress := inProgress + [p];
    }

    method PopInProgress(p: Obj, ghost preds: Graph)
      requires Sane(preds) && p in preds && graph.backPtr[p].OnePred?
      requires inProgress != [] && inProgress[|inProgress| - 1] == p && p !in inProgress[..|inProgress| - 1]
      modifies this`inProgress
      ensures Sane(preds) && inProgress == old(inProgress[..|inProgress| - 1])
      ensures Path(preds) == old(Path(preds)) - {p} && p !in graph.Heights()
      ensures graph.Heights() == old(graph.Heights())
    {
      hide BackGraph.Valid, BackGraph.ObjectOk, Plain;
      ghost var before := inProgress;
      inProgress := inProgress[..|inProgress| - 1];
      assert before == inProgress + [p];
      Pushed(preds, graph.Heights(), inProgress, p);
    }

    /** Where the search has nothing to do. */
    lemma FoundAtOnce(p: Obj, preds: Graph, least: map<Obj, nat>, rank: map<Obj, nat>)
      requires Sane(preds) && p in preds && preds.Keys <= least.Keys && OnCourse(preds, least, rank, p)
      ensures p in Path(preds) ==> !Ranked(preds, rank)
      ensures graph.backPtr[p].NoPred? ==> p !in Path(preds) && Found(preds, least, rank, p, 1)
      ensures p in graph.Heights() && IsCurrent(graph.Heights()[p].0, graph.Heights()[p].1, graph.gcNo) ==>
                p !in Path(preds) && graph.Heights()[p].0 > 0 && Found(preds, least, rank, p, graph.Heights()[p].0)
    {
      if Ranked(preds, rank) {
        assert RightAt(preds, least, rank, graph.gcNo, graph.Heights(), p);
        LongestNone(preds, least, rank, p);
        if graph.backPtr[p].NoPred? { assert graph.Preds(p) == []; }
      }
    }

    lemma OnlyPred(p: Obj, q: Obj, preds: Graph)
      requires Sane(preds) && p in preds && graph.backPtr[p] == OnePred(q)
      ensures preds[p] == [q] && q in preds[p] && q in preds
    {
      assert graph.Preds(p) == [q];
    }

    lemma ManyOnPath(p: Obj, preds: Graph)
      requires Sane(preds) && p in preds && graph.backPtr[p].ManyPreds?
      ensures p in graph.backPtr && p in graph.Heights() && p !in inProgress && graph.backPtr[p].be < graph.space.Length
      ensures p in Path(preds) <==> graph.Heights()[p].0 == HEIGHT_IN_PROGRESS
    {
    }

    method ThroughMany(p: Obj, ghost preds: Graph, ghost least: map<Obj, nat>, ghost rank: map<Obj, nat>)
        returns (result: nat)
      requires Sane(preds) && p in preds && preds.Keys <= least.Keys && OnCourse(preds, least, rank, p)
      requires Known(preds, least, graph.Heights())
      requires graph.backPtr[p].ManyPreds? && p !in Path(preds) && p in graph.Heights()
      requires !IsCurrent(graph.Heights()[p].0, graph.Heights()[p].1, graph.gcNo)
      modifies this`inProgress, graph.space
      ensures Sane(preds) && inProgress == old(inProgress) && Path(preds) == old(Path(preds))
      ensures result > 0 && Found(preds, least, rank, p, result)
      ensures Known(preds, least, graph.Heights()) && Explained(preds, least, p, result)
      ensures Stable(old(graph.Heights()), graph.Heights(), graph.gcNo)
      ensures p in graph.Heights() ==> graph.Heights()[p] == (result, graph.gcNo % 0x1_0000)
      ensures Visited(preds, graph.Heights(), Path(preds) + {p}, graph.gcNo, p, |preds[p]|, result)
      decreases |preds.Keys - Path(preds)|, 0
    {
      hide BackGraph.Valid, BackGraph.ObjectOk, BackGraph.Heights, Plain, Right, Whole, Stack, Sane, Known, Explained,
        Stable, Visited;
      ManyOnPath(p, preds);
      HeightKinds(p, preds);
      var s := graph.space[graph.backPtr[p].be];
      HeightAt(p);
      var least0 := if s.height > 0 then s.height else 1;
      ghost var path, before := Path(preds), graph.Heights();
      Started(preds, before, inProgress, p, s.heightGcNo);
      FewerLeft(preds.Keys, path, p);
      KnownStarted(preds, least, before, p, s.heightGcNo);
      if Ranked(preds, rank) { RightStarted(preds, least, rank, graph.gcNo, before, p, s.heightGcNo); }
      SetSane(p, HEIGHT_IN_PROGRESS, s.heightGcNo, preds);
      ghost var started := graph.Heights();
      result := VisitPreds(p, least0, path, preds, least, rank);
      ManyOnPath(p, preds);
      ghost var visited := graph.Heights();
      Finished(preds, visited, inProgress, p, result, graph.gcNo % 0x1_0000);
      KnownFinished(preds, least, visited, p, result, graph.gcNo % 0x1_0000);
      StableAround(before, started, visited, p, (result, graph.gcNo % 0x1_0000), graph.gcNo);
      VisitedFinished(preds, visited, path + {p}, graph.gcNo, p, result);
      if Ranked(preds, rank) { RightFinished(preds, least, rank, graph.gcNo, graph.Heights(), p, result); }
      SetSane(p, result, graph.gcNo % 0x1_0000, preds);
      assert (path + {p}) - {p} == path;
    }

    lemma HeightKinds(p: Obj, preds: Graph)
      requires Sane(preds) && p in preds && p in graph.Heights() && p !in Path(preds)
      ensures graph.Heights()[p].0 > 0 || graph.Heights()[p].0 == HEIGHT_UNKNOWN
    {
    }

    /** The loop over the predecessors of `p`, which is on the search path `path + {p}`. */
    method VisitPreds(p: Obj, least0: nat, ghost path: set<Obj>, ghost preds: Graph, ghost least: map<Obj, nat>,
                      ghost rank: map<Obj, nat>) returns (result: nat)
      requires Sane(preds) && p in preds && preds.Keys <= least.Keys && least0 > 0
      requires Path(preds) == path + {p} && p !in path && p in graph.Heights()
      requires Known(preds, least, graph.Heights()) && Explained(preds, least, p, least0)
      requires Ranked(preds, rank) ==> Below(rank, path, p) && LongestOver(preds, least, rank, p, 0) == least0 &&
                                       Right(preds, least, rank, graph.gcNo, graph.Heights())
      modifies this`inProgress, graph.space
      ensures Sane(preds) && inProgress == old(inProgress) && Path(preds) == path + {p} && result > 0
      ensures Ranked(preds, rank) ==> result == LongestOver(preds, least, rank, p, |preds[p]|) &&
                                      Right(preds, least, rank, graph.gcNo, graph.Heights())
      ensures Known(preds, least, graph.Heights()) && Explained(preds, least, p, result)
      ensures Stable(old(graph.Heights()), graph.Heights(), graph.gcNo)
      ensures Visited(preds, graph.Heights(), path + {p}, graph.gcNo, p, |preds[p]|, result)
      decreases |preds.Keys - Path(preds)|, 2
    {
      hide BackGraph.Valid, BackGraph.ObjectOk, BackGraph.Heights, BackGraph.Preds, Plain, Right, Whole, Stack, Sane,
        Known, Explained, Stable, Visited;
      result := least0;
      InPointers(p, preds);
      var list := graph.ListPreds(p);
      assert list == preds[p];
      ghost var before := graph.Heights();
      VisitedNone(preds, before, path + {p}, graph.gcNo, p, result);
      var k := 0;
      while k < |list|
        invariant k <= |list| && result > 0
        invariant Known(preds, least, graph.Heights()) && Explained(preds, least, p, result)
        invariant Stable(before, graph.Heights(), graph.gcNo)
        invariant Visited(preds, graph.Heights(), path + {p}, graph.gcNo, p, k, result)
        invariant Sane(preds) && inProgress == old(inProgress) && Path(preds) == path + {p}
        invariant Ranked(preds, rank) ==>
                    result == LongestOver(preds, least, rank, p, k) &&
                      Right(preds, least, rank, graph.gcNo, graph.Heights())
      {
        assert list[k] in preds[p];
        InGraph(preds, p, list[k]);
        if Ranked(preds, rank) { StepBelow(preds, rank, path, p, list[k]); }
        ghost var earlier := graph.Heights();
        var height := BackwardsHeight(list[k], preds, least, rank);
        StableMore(before, earlier, graph.Heights(), graph.gcNo);
        VisitedNext(preds, earlier, graph.Heights(), path + {p}, graph.gcNo, p, k, result, height);
        if height > 0 { ExplainedNext(preds, least, p, list[k], height); }
        if height >= result { result := height + 1; }
        k := k + 1;
      }
    }

    lemma HeightAt(p: Obj)
      requires p in graph.Heights() && p in graph.backPtr && graph.backPtr[p].ManyPreds? &&
                 graph.backPtr[p].be < graph.space.Length
      ensures graph.Heights()[p] == graph.Height(p)
    {
    }

    method SetSane(p: Obj, height: int, heightGcNo: nat, ghost preds: Graph)
      requires Sane(preds) && p in preds && graph.backPtr[p].ManyPreds? && graph.backPtr[p].be < graph.space.Length
      requires height > 0 || height == HEIGHT_IN_PROGRESS
      modifies graph.space
      ensures Sane(preds) && graph.Heights() == old(graph.Heights())[p := (height, heightGcNo)]
    {
      hide BackGraph.Valid;
      graph.SetHeight(p, height, heightGcNo);
      graph.AllOk();
    }
  }

  lemma InGraph(preds: Graph, p: Obj, q: Obj)
    requires Whole(preds) && p in preds && q in preds[p]
    ensures q in preds
  {
  }

  lemma OneHigher(preds: Graph, least: map<Obj, nat>, rank: map<Obj, nat>, gcNo: nat, heights: Heights, p: Obj, q: Obj)
    requires Ranked(preds, rank) && preds.Keys <= least.Keys && p in preds && preds[p] == [q]
    requires Right(preds, least, rank, gcNo, heights) && p !in heights && q in preds
    ensures Longest(preds, least, rank, p) == Longest(preds, least, rank, q) + 1
  {
    assert RightAt(preds, least, rank, gcNo, heights, p);
    assert LongestOver(preds, least, rank, p, 0) == 1;
  }

  lemma RightStarted(preds: Graph, least: map<Obj, nat>, rank: map<Obj, nat>, gcNo: nat, heights: Heights, p: Obj,
                     gc: nat)
    requires Ranked(preds, rank) && preds.Keys <= least.Keys && p in preds && p in heights
    requires Right(preds, least, rank, gcNo, heights) && !IsCurrent(heights[p].0, heights[p].1, gcNo)
    requires heights[p].0 != HEIGHT_IN_PROGRESS
    ensures Right(preds, least, rank, gcNo, heights[p := (HEIGHT_IN_PROGRESS, gc)])
    ensures LongestOver(preds, least, rank, p, 0) == if heights[p].0 > 0 then heights[p].0 else 1
  {
    hide Longest, LongestOver;
    assert RightAt(preds, least, rank, gcNo, heights, p);
    LongestNone(preds, least, rank, p);
    forall o | o in preds ensures RightAt(preds, least, rank, gcNo, heights[p := (HEIGHT_IN_PROGRESS, gc)], o) {
      assert RightAt(preds, least, rank, gcNo, heights, o);
    }
  }

  lemma LongestNone(preds: Graph, least: map<Obj, nat>, rank: map<Obj, nat>, p: Obj)
    requires Ranked(preds, rank) && preds.Keys <= least.Keys && p in preds
    ensures LongestOver(preds, least, rank, p, 0) == least[p]
    ensures Longest(preds, least, rank, p) == LongestOver(preds, least, rank, p, |preds[p]|)
  {
  }

  lemma RightFinished(preds: Graph, least: map<Obj, nat>, rank: map<Obj, nat>, gcNo: nat, heights: Heights, p: Obj,
                      result: nat)
    requires Ranked(preds, rank) && preds.Keys <= least.Keys && p in preds && p in heights
    requires Right(preds, least, rank, gcNo, heights) && result == LongestOver(preds, least, rank, p, |preds[p]|)
    ensures Right(preds, least, rank, gcNo, heights[p := (result, gcNo % 0x1_0000)])
    ensures result == Longest(preds, least, rank, p)
  {
    hide Longest, LongestOver;
    LongestNone(preds, least, rank, p);
    forall o | o in preds ensures RightAt(preds, least, rank, gcNo, heights[p := (result, gcNo % 0x1_0000)], o) {
      assert RightAt(preds, least, rank, gcNo, heights, o);
    }
  }
}
