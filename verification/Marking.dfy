/** Marking from finalizable objects: the object graph, chains of pointers, and draining the mark
    stack (src/gc-7.2/finalize.c:245-293, src/gc-7.2/include/private/gc_pmark.h:413-421). */
module Marking {
  type Obj = nat

  /** The pointers each object holds. */
  type Heap = map<Obj, seq<Obj>>

  datatype MarkProc = Normal | IgnoreSelf | NoOrder | Unreachable

  predicate WellFormed(heap: Heap) {
    forall x, i | x in heap && 0 <= i < |heap[x]| :: heap[x][i] in heap
  }

  ghost predicate Chain(heap: Heap, path: seq<Obj>) {
    forall i | 0 <= i < |path| - 1 :: path[i] in heap && path[i + 1] in heap[path[i]]
  }

  /** A non-empty chain of pointers leads from `x` to `y`. */
  ghost predicate Reaches(heap: Heap, x: Obj, y: Obj) {
    exists path: seq<Obj> :: |path| >= 2 && path[0] == x && path[|path| - 1] == y && Chain(heap, path)
  }

  /** What the mark procedure of a finalizable object `p` marks: everything behind its pointers, or
      behind those that do not lead back to it, or nothing. */
  ghost predicate Protects(heap: Heap, proc: MarkProc, p: Obj, y: Obj) {
    match proc
    case Normal => Reaches(heap, p, y)
    case Unreachable => Reaches(heap, p, y)
    case IgnoreSelf => p in heap && exists c :: c in heap[p] && c != p && (c == y || Reaches(heap, c, y))
    case NoOrder => false
  }

  ghost predicate Scanned(heap: Heap, marks: set<Obj>, x: Obj) {
    x in heap ==> forall c | c in heap[x] :: c in marks
  }

  /** Whatever a marked object points to is marked. */
  ghost predicate Closed(heap: Heap, marks: set<Obj>) {
    forall x | x in marks :: Scanned(heap, marks, x)
  }

  // ---- Chains ----

  lemma OneStep(heap: Heap, x: Obj, y: Obj)
    requires x in heap && y in heap[x]
    ensures Reaches(heap, x, y)
  {
    assert Chain(heap, [x, y]) && |[x, y]| >= 2 && [x, y][0] == x && [x, y][|[x, y]| - 1] == y;
  }

  lemma OneMore(heap: Heap, x: Obj, y: Obj, z: Obj)
    requires Reaches(heap, x, y) && y in heap && z in heap[y]
    ensures Reaches(heap, x, z)
  {
    var path :| |path| >= 2 && path[0] == x && path[|path| - 1] == y && Chain(heap, path);
    var longer := path + [z];
    assert forall i | 0 <= i < |longer| - 1 :: longer[i] == path[i];
    assert Chain(heap, longer) && longer[0] == x && longer[|longer| - 1] == z;
  }

  /** The first step of a chain. */
  lemma FirstStep(heap: Heap, x: Obj, y: Obj)
    requires Reaches(heap, x, y)
    ensures x in heap && exists c :: c in heap[x] && (c == y || Reaches(heap, c, y))
  {
    var path :| |path| >= 2 && path[0] == x && path[|path| - 1] == y && Chain(heap, path);
    var c := path[1];
    assert path[0 + 1] in heap[path[0]];
    if |path| > 2 {
      var rest := path[1..];
      forall i | 0 <= i < |rest| - 1 ensures rest[i] in heap && rest[i + 1] in heap[rest[i]] {
        var j := i + 1;
        assert path[j] in heap && path[j + 1] in heap[path[j]];
      }
      assert Chain(heap, rest) && rest[0] == c && rest[|rest| - 1] == y;
    }
  }

  lemma {:induction false} MarkedAlong(heap: Heap, marks: set<Obj>, path: seq<Obj>, i: nat)
    requires Closed(heap, marks) && Chain(heap, path) && i < |path| && path[0] in marks
    ensures path[i] in marks
  {
    if i > 0 {
      MarkedAlong(heap, marks, path, i - 1);
      assert path[(i - 1) + 1] in heap[path[i - 1]];
      assert Scanned(heap, marks, path[i - 1]);
    }
  }

  /** A closed mark set holds all that can be reached from it. */
  lemma ReachedIsMarked(heap: Heap, marks: set<Obj>, x: Obj, y: Obj)
    requires Closed(heap, marks) && x in marks && Reaches(heap, x, y)
    ensures y in marks
  {
    var path :| |path| >= 2 && path[0] == x && path[|path| - 1] == y && Chain(heap, path);
    MarkedAlong(heap, marks, path, |path| - 1);
  }

  /** ... and all that can be reached from an object once its pointers have been followed. */
  lemma BehindScanned(heap: Heap, marks: set<Obj>, x: Obj, y: Obj)
    requires Closed(heap, marks) && Scanned(heap, marks, x) && Reaches(heap, x, y)
    ensures y in marks
  {
    FirstStep(heap, x, y);
    var c :| c in heap[x] && (c == y || Reaches(heap, c, y));
    if c != y { ReachedIsMarked(heap, marks, c, y); }
  }

  lemma ProtectedIsMarked(heap: Heap, marks: set<Obj>, proc: MarkProc, p: Obj, y: Obj)
    requires Closed(heap, marks) && p in marks && Protects(heap, proc, p, y)
    ensures y in marks
  {
    match proc
    case Normal => ReachedIsMarked(heap, marks, p, y);
    case Unreachable => ReachedIsMarked(heap, marks, p, y);
    case NoOrder =>
    case IgnoreSelf =>
      var c :| c in heap[p] && c != p && (c == y || Reaches(heap, c, y));
      assert Scanned(heap, marks, p);
      if c != y { ReachedIsMarked(heap, marks, c, y); }
  }

  // ---- Draining the mark stack ----

  function Elements(stack: seq<Obj>): set<Obj> {
    set x | x in stack
  }

  ghost predicate Behind(heap: Heap, sources: set<Obj>, y: Obj) {
    exists x :: x in sources && Reaches(heap, x, y)
  }

  lemma BehindNext(heap: Heap, sources: set<Obj>, y: Obj, z: Obj)
    requires (y in sources || Behind(heap, sources, y)) && y in heap && z in heap[y]
    ensures Behind(heap, sources, z)
  {
    if y in sources {
      OneStep(heap, y, z);
    } else {
      var x :| x in sources && Reaches(heap, x, y);
      OneMore(heap, x, y, z);
    }
  }

  lemma FewerLeft<T>(all: set<T>, done: set<T>, x: T)
    requires x in all && x !in done
    ensures |all - (done + {x})| < |all - done|
  {
    assert all - (done + {x}) == all - done - {x};
  }

  /** Marked in `marks` but not in `before`: reached from one of `sources`. */
  ghost predicate ReachedFrom(heap: Heap, sources: set<Obj>, before: set<Obj>, marks: set<Obj>) {
    forall y | y in marks && y !in before :: Behind(heap, sources, y)
  }

  /** Objects waiting on the stack are all that is left to scan. */
  ghost predicate Pending(heap: Heap, marks: set<Obj>, sources: set<Obj>, stack: seq<Obj>) {
    forall x | x in marks || x in sources :: x in stack || Scanned(heap, marks, x)
  }

  /** `while (!GC_mark_stack_empty()) MARK_FROM_MARK_STACK();` on a stack of heap objects. */
  method Drain(heap: Heap, before: set<Obj>, sources: seq<Obj>) returns (marks: set<Obj>)
    requires WellFormed(heap) && before <= heap.Keys && forall x | x in sources :: x in heap
    requires Pending(heap, before, Elements(sources), sources)
    ensures before <= marks <= heap.Keys && Closed(heap, marks)
    ensures forall x | x in sources :: Scanned(heap, marks, x)
    ensures ReachedFrom(heap, Elements(sources), before, marks)
  {
    ghost var from := Elements(sources);
    marks := before;
    var stack := sources;
    while stack != []
      invariant before <= marks <= heap.Keys && forall x | x in stack :: x in heap
      invariant Pending(heap, marks, from, stack)
      invariant ReachedFrom(heap, from, before, marks)
      invariant forall x | x in stack :: x in from || Behind(heap, from, x)
      decreases |heap.Keys - marks|, |stack|
    {
      var top := stack[|stack| - 1];
      marks, stack := ScanObject(heap, before, marks, from, stack);
    }
  }

  /** Pops an object and marks and pushes those of its children that are not marked yet. */
  method ScanObject(heap: Heap, ghost before: set<Obj>, marks: set<Obj>, ghost from: set<Obj>, stack: seq<Obj>)
      returns (marks': set<Obj>, stack': seq<Obj>)
    requires WellFormed(heap) && stack != [] && before <= marks <= heap.Keys && forall x | x in stack :: x in heap
    requires Pending(heap, marks, from, stack) && ReachedFrom(heap, from, before, marks)
    requires forall x | x in stack :: x in from || Behind(heap, from, x)
    ensures marks <= marks' <= heap.Keys && forall x | x in stack' :: x in heap
    ensures Pending(heap, marks', from, stack') && ReachedFrom(heap, from, before, marks')
    ensures forall x | x in stack' :: x in from || Behind(heap, from, x)
    ensures |heap.Keys - marks'| < |heap.Keys - marks| || (marks' == marks && |stack'| < |stack|)
  {
    hide Behind, Scanned;
    var n := |stack| - 1;
    var top := stack[n];
    marks', stack' := marks, stack[..n];
    assert forall x | x in stack :: x in stack' || x == top;
    var i := 0;
    while i < |heap[top]|
      invariant i <= |heap[top]| && marks <= marks' <= heap.Keys && forall x | x in stack' :: x in heap
      invariant forall c | c in heap[top][..i] :: c in marks'
      invariant forall x | x in marks' || x in from :: x == top || x in stack' || Scanned(heap, marks', x)
      invariant ReachedFrom(heap, from, before, marks')
      invariant forall x | x in stack' :: x in from || Behind(heap, from, x)
      invariant marks' == marks ==> |stack'| == n
      invariant marks' != marks ==> |heap.Keys - marks'| < |heap.Keys - marks|
    {
      var c := heap[top][i];
      if c !in marks' {
        BehindNext(heap, from, top, c);
        FewerLeft(heap.Keys, marks', c);
        forall x | Scanned(heap, marks', x) ensures Scanned(heap, marks' + {c}, x) { ScannedMore(heap, marks', c, x); }
        marks', stack' := marks' + {c}, stack' + [c];
      }
      i := i + 1;
    }
    assert heap[top][..i] == heap[top];
    AllScanned(heap, marks', top);
  }

  lemma ScannedMore(heap: Heap, marks: set<Obj>, c: Obj, x: Obj)
    requires Scanned(heap, marks, x)
    ensures Scanned(heap, marks + {c}, x)
  {
  }

  lemma AllScanned(heap: Heap, marks: set<Obj>, x: Obj)
    requires x in heap && forall c | c in heap[x] :: c in marks
    ensures Scanned(heap, marks, x)
  {
  }

  /** `GC_MARK_FO`: the mark procedure of `p` fills the stack, which is then drained. What gets marked
      is exactly what the procedure protects. */
  method MarkFrom(heap: Heap, before: set<Obj>, p: Obj, proc: MarkProc) returns (marks: set<Obj>)
    requires WellFormed(heap) && before <= heap.Keys && p in heap && Closed(heap, before)
    ensures before <= marks <= heap.Keys && Closed(heap, marks)
    ensures forall y :: y in marks <==> y in before || Protects(heap, proc, p, y)
    ensures proc.Normal? || proc.Unreachable? ==> Scanned(heap, marks, p)
    ensures proc.IgnoreSelf? ==> Scanned(heap, marks + {p}, p)
  {
    match proc
    case NoOrder => marks := before;
    case IgnoreSelf =>
      marks := MarkOthers(heap, before, p);
    case Normal => marks := MarkBehind(heap, before, p);
    case Unreachable => marks := MarkBehind(heap, before, p);
  }

  /** `GC_normal_finalize_mark_proc` pushes the object itself, unmarked, to be scanned. */
  method MarkBehind(heap: Heap, before: set<Obj>, p: Obj) returns (marks: set<Obj>)
    requires WellFormed(heap) && before <= heap.Keys && p in heap && Closed(heap, before)
    ensures before <= marks <= heap.Keys && Closed(heap, marks) && Scanned(heap, marks, p)
    ensures forall y :: y in marks <==> y in before || Reaches(heap, p, y)
  {
    assert Elements([p]) == {p};
    marks := Drain(heap, before, [p]);
    assert Scanned(heap, marks, p);
    forall y ensures y in marks <==> y in before || Reaches(heap, p, y) {
      if Reaches(heap, p, y) { BehindScanned(heap, marks, p, y); }
    }
  }

  /** `GC_ignore_self_finalize_mark_proc` marks and pushes the children other than `p`. */
  method MarkOthers(heap: Heap, before: set<Obj>, p: Obj) returns (marks: set<Obj>)
    requires WellFormed(heap) && before <= heap.Keys && p in heap && Closed(heap, before)
    ensures before <= marks <= heap.Keys && Closed(heap, marks) && Scanned(heap, marks + {p}, p)
    ensures forall y :: y in marks <==> y in before || Protects(heap, IgnoreSelf, p, y)
  {
    var pushed, stack, i := before, [], 0;
    while i < |heap[p]|
      invariant i <= |heap[p]| && before <= pushed <= heap.Keys
      invariant forall c | c in heap[p][..i] :: c == p || c in pushed
      invariant forall x | x in stack :: x in heap[p] && x != p && x in heap
      invariant forall x | x in pushed :: x in before || x in stack
    {
      var c := heap[p][i];
      if c != p && c !in pushed {
        pushed, stack := pushed + {c}, stack + [c];
      }
      i := i + 1;
    }
    assert heap[p][..i] == heap[p];
    forall x | x in pushed || x in stack ensures x in stack || Scanned(heap, pushed, x) {
      if x !in stack { assert Scanned(heap, before, x); }
    }
    marks := Drain(heap, pushed, stack);
    forall y ensures y in marks <==> y in before || Protects(heap, IgnoreSelf, p, y) {
      if y in marks && y !in before && y !in pushed {
        var x :| x in stack && Reaches(heap, x, y);
      }
      if Protects(heap, IgnoreSelf, p, y) {
        var c :| c in heap[p] && c != p && (c == y || Reaches(heap, c, y));
        if c != y { ReachedIsMarked(heap, marks, c, y); }
      }
    }
  }
}
