/** Uses of locals in analysed code, and the runs of that code (src/Compiler.c:271-300, 1045-1097): which
    uses read a local for the last time. */
module LocalUses {
  import opened PathNodes
  import opened Wrappers

  class LocalBinding {
    const index: nat
    const clearPathRoot: PathNode
    var used: bool

    constructor (index: nat, clearPathRoot: PathNode)
      ensures this.index == index && this.clearPathRoot == clearPathRoot && !used
    {
      this.index, this.clearPathRoot, used := index, clearPathRoot, false;
    }
  }

  /** `stamp` is the time the use was analysed. */
  class LocalBindingExpr {
    const b: LocalBinding
    const clearPath: PathNode
    const clearRoot: PathNode
    const stamp: nat
    var shouldClear: bool

    constructor (b: LocalBinding, clearPath: PathNode, clearRoot: PathNode, stamp: nat)
      ensures this.b == b && this.clearPath == clearPath && this.clearRoot == clearRoot && this.stamp == stamp
      ensures !shouldClear
    {
      this.b, this.clearPath, this.clearRoot, this.stamp := b, clearPath, clearRoot, stamp;
      shouldClear := false;
    }

    /** The use is in the same clearing region as the binding of its local, and the local is not the
        function itself. */
    predicate Owned() {
      b.index > 0 && clearRoot == b.clearPathRoot
    }
  }

  /** Code under two path nodes may run in one run: their deepest common node is no branch. */
  ghost predicate MayBothRun(p: PathNode, q: PathNode) {
    exists c: PathNode :: DeepestCommon(c, Some(p), Some(q)) && c.kind.PATH?
  }

  /** A later use of the same local that may run after `u`. */
  ghost predicate Succeeds(u: LocalBindingExpr, later: LocalBindingExpr) {
    u.b == later.b && u.stamp < later.stamp && MayBothRun(u.clearPath, later.clearPath)
  }

  /** Exactly the owned uses without a successor are marked. */
  ghost predicate Marked(uses: set<LocalBindingExpr>)
    reads uses
  {
    forall u | u in uses :: u.shouldClear <==> u.Owned() && forall v | v in uses :: !Succeeds(u, v)
  }

  lemma MarkedBefore(uses: set<LocalBindingExpr>, before: set<LocalBindingExpr>)
    requires Marked(uses) && before == set u | u in uses && u.shouldClear
    ensures forall u | u in uses :: u in before <==> u.Owned() && forall v | v in uses :: !Succeeds(u, v)
  {
    hide Succeeds;
  }

  /** A newer use has taken the mark from the owned uses of its local that it may run after. */
  lemma MarkedNext(uses: set<LocalBindingExpr>, r: LocalBindingExpr, before: set<LocalBindingExpr>)
    requires forall u | u in uses :: u.stamp < r.stamp
    requires forall u | u in uses :: u in before <==> u.Owned() && forall v | v in uses :: !Succeeds(u, v)
    requires forall u | u in uses :: u.shouldClear <==>
               u in before && !(u.Owned() && u.b == r.b && MayBothRun(u.clearPath, r.clearPath))
    requires r.shouldClear <==> r.Owned()
    ensures Marked(uses + {r})
    ensures forall u | u in uses :: u.shouldClear <==> u in before && !Succeeds(u, r)
  {
    hide MayBothRun;
  }

  // ---- Analysed code and its runs ----

  datatype Expr =
    | Global
    | LocalUse(u: LocalBindingExpr)
    | Body(es: seq<Expr>)
    | IfExpr(test: Expr, thenExpr: Expr, elseExpr: Expr)
    | LoopExpr(locals: seq<LocalBinding>, inits: seq<Expr>, body: Expr)

  ghost function Uses(e: Expr): set<LocalBindingExpr>
    decreases e
  {
    match e
    case Global => {}
    case LocalUse(u) => {u}
    case Body(es) => UsesOf(es)
    case IfExpr(test, thenExpr, elseExpr) => Uses(test) + Uses(thenExpr) + Uses(elseExpr)
    case LoopExpr(_, inits, body) => UsesOf(inits) + Uses(body)
  }

  ghost function UsesOf(es: seq<Expr>): set<LocalBindingExpr>
    decreases es
  {
    if es == [] then {} else UsesOf(es[..|es| - 1]) + Uses(es[|es| - 1])
  }

  /** What a run does with locals. */
  datatype Event = Read(u: LocalBindingExpr) | Bind(b: LocalBinding)

  /** The choices of one run: which arm each `if` takes, how often each loop goes round, and where the
      run stops if it does not reach the end. */
  datatype Run =
    | Stop
    | Leaf
    | BodyRun(runs: seq<Run>)
    | IfRun(test: Run, takeThen: bool, arm: Run)
    | LoopRun(inits: seq<Run>, rounds: seq<Run>)

  /** The events of a run, in order; a loop binds its locals to their initial values, one by one, and anew
      before every further round. */
  function Trace(e: Expr, run: Run): seq<Event>
    decreases run
  {
    match e
    case Global => []
    case LocalUse(u) => if run.Stop? then [] else [Read(u)]
    case Body(es) => if run.BodyRun? && |run.runs| <= |es| then TraceAll(es, run.runs) else []
    case IfExpr(test, thenExpr, elseExpr) =>
      if run.IfRun? then Trace(test, run.test) + Trace(if run.takeThen then thenExpr else elseExpr, run.arm) else []
    case LoopExpr(locals, inits, body) =>
      if run.LoopRun? && |run.inits| <= |inits| == |locals| then
        InitTrace(locals, inits, run.inits) +
        (if |run.inits| == |inits| then RoundTrace(locals, body, run.rounds) else [])
      else []
  }

  function TraceAll(es: seq<Expr>, runs: seq<Run>): seq<Event>
    requires |runs| <= |es|
    decreases runs
  {
    if runs == [] then []
    else
      var n := |runs| - 1;
      TraceAll(es, runs[..n]) + Trace(es[n], runs[n])
  }

  function InitTrace(locals: seq<LocalBinding>, inits: seq<Expr>, runs: seq<Run>): seq<Event>
    requires |runs| <= |inits| == |locals|
    decreases runs
  {
    if runs == [] then []
    else
      var n := |runs| - 1;
      InitTrace(locals, inits, runs[..n]) + Trace(inits[n], runs[n]) + [Bind(locals[n])]
  }

  function RoundTrace(locals: seq<LocalBinding>, body: Expr, rounds: seq<Run>): seq<Event>
    decreases rounds
  {
    if rounds == [] then []
    else
      var n := |rounds| - 1;
      RoundTrace(locals, body, rounds[..n]) + ((if n == 0 then [] else Binds(locals)) + Trace(body, rounds[n]))
  }

  function Binds(locals: seq<LocalBinding>): (t: seq<Event>)
    ensures |t| == |locals| && forall i | 0 <= i < |t| :: t[i] == Bind(locals[i])
  {
    seq(|locals|, i requires 0 <= i < |locals| => Bind(locals[i]))
  }

  /** Events `i` and `j` read one local, and it is not bound again in between. */
  ghost predicate Again(t: seq<Event>, i: int, j: int) {
    && 0 <= i < j < |t| && t[i].Read? && t[j].Read? && t[i].u.b == t[j].u.b
    && forall k | i < k < j :: t[k] != Bind(t[i].u.b)
  }

  // ---- What the analysis knows about its code ----

  /** Uses of `e` come before those of `f`, on paths that may both run. */
  ghost predicate Before(e: Expr, f: Expr) {
    forall u, v | u in Uses(e) && v in Uses(f) :: u.stamp < v.stamp && MayBothRun(u.clearPath, v.clearPath)
  }

  ghost predicate InOrder(es: seq<Expr>) {
    forall i, j | 0 <= i < j < |es| :: Before(es[i], es[j])
  }

  /** Uses of `e` and `f` never both run. */
  ghost predicate Exclusive(e: Expr, f: Expr) {
    forall u, v | u in Uses(e) && v in Uses(f) :: !MayBothRun(u.clearPath, v.clearPath)
  }

  function Locals(locals: seq<LocalBinding>): set<LocalBinding> {
    set b | b in locals
  }

  /** Locals are used inside their scope, consecutive parts of the code are in order, the arms of an `if`
      exclude each other, and a loop body owns no use of an outer local. */
  ghost predicate Arranged(e: Expr, scope: set<LocalBinding>)
    decreases e
  {
    match e
    case Global => true
    case LocalUse(u) => u.b in scope
    case Body(es) => InOrder(es) && forall i | 0 <= i < |es| :: Arranged(es[i], scope)
    case IfExpr(test, thenExpr, elseExpr) =>
      && Arranged(test, scope) && Arranged(thenExpr, scope) && Arranged(elseExpr, scope)
      && Before(test, thenExpr) && Before(test, elseExpr) && Exclusive(thenExpr, elseExpr)
    case LoopExpr(locals, inits, body) =>
      && |locals| == |inits| && InOrder(inits) && Arranged(body, scope + Locals(locals))
      && (forall i | 0 <= i < |inits| :: Arranged(inits[i], scope + Locals(locals[..i])) && Before(inits[i], body))
      && forall u | u in Uses(body) && u.b in scope :: !u.Owned()
  }

  // ---- Every run clears safely ----

  /** A use that runs before another one of the same local has it as a successor, unless it does not
      own the local. */
  ghost predicate Sound(t: seq<Event>) {
    forall i, j | Again(t, i, j) :: Settled(t[i].u, t[j].u)
  }

  ghost predicate Settled(u: LocalBindingExpr, v: LocalBindingExpr) {
    u.Owned() ==> Succeeds(u, v)
  }

  /** Reads of locals outside `scope` come after their binding. */
  ghost predicate Closed(t: seq<Event>, scope: set<LocalBinding>) {
    forall j | 0 <= j < |t| && t[j].Read? && t[j].u.b !in scope :: Bind(t[j].u.b) in t[..j]
  }

  ghost predicate ReadsFrom(t: seq<Event>, uses: set<LocalBindingExpr>) {
    forall e | e in t && e.Read? :: e.u in uses
  }

  lemma {:induction false} TraceReads(e: Expr, run: Run)
    ensures ReadsFrom(Trace(e, run), Uses(e))
    decreases run
  {
    match e
    case Global =>
    case LocalUse(u) =>
    case Body(es) => if run.BodyRun? && |run.runs| <= |es| { TraceAllReads(es, run.runs); }
    case IfExpr(test, thenExpr, elseExpr) =>
      if run.IfRun? {
        TraceReads(test, run.test);
        TraceReads(if run.takeThen then thenExpr else elseExpr, run.arm);
      }
    case LoopExpr(locals, inits, body) =>
      if run.LoopRun? && |run.inits| <= |inits| == |locals| {
        InitTraceReads(locals, inits, run.inits);
        RoundTraceReads(locals, body, run.rounds);
      }
  }

  lemma {:induction false} PrefixUses(es: seq<Expr>, n: nat)
    requires n <= |es|
    ensures UsesOf(es[..n]) <= UsesOf(es)
    ensures forall i | 0 <= i < n :: Uses(es[i]) <= UsesOf(es[..n])
    decreases |es|
  {
    if n == |es| {
      assert es[..n] == es;
      if n > 0 {
        PrefixUses(es[..n - 1], n - 1);
        assert es[..n - 1][..n - 1] == es[..n - 1];
        forall i | 0 <= i < n ensures Uses(es[i]) <= UsesOf(es) {
          if i < n - 1 { assert es[..n - 1][i] == es[i]; }
        }
      }
    } else {
      PrefixUses(es[..|es| - 1], n);
      assert es[..|es| - 1][..n] == es[..n];
      forall i | 0 <= i < n ensures Uses(es[i]) <= UsesOf(es[..n]) { assert es[..|es| - 1][i] == es[i]; }
    }
  }

  lemma {:induction false} TraceAllReads(es: seq<Expr>, runs: seq<Run>)
    requires |runs| <= |es|
    ensures ReadsFrom(TraceAll(es, runs), UsesOf(es[..|runs|])) && UsesOf(es[..|runs|]) <= UsesOf(es)
    decreases runs
  {
    PrefixUses(es, |runs|);
    if runs != [] {
      var n := |runs| - 1;
      TraceAllReads(es, runs[..n]);
      TraceReads(es[n], runs[n]);
      assert es[..n + 1][..n] == es[..n];
    }
  }

  lemma {:induction false} InitTraceReads(locals: seq<LocalBinding>, inits: seq<Expr>, runs: seq<Run>)
    requires |runs| <= |inits| == |locals|
    ensures ReadsFrom(InitTrace(locals, inits, runs), UsesOf(inits[..|runs|]))
    ensures UsesOf(inits[..|runs|]) <= UsesOf(inits)
    ensures forall i | 0 <= i < |runs| :: Bind(locals[i]) in InitTrace(locals, inits, runs)
    decreases runs
  {
    PrefixUses(inits, |runs|);
    if runs != [] {
      var n := |runs| - 1;
      InitTraceReads(locals, inits, runs[..n]);
      TraceReads(inits[n], runs[n]);
      assert inits[..n + 1][..n] == inits[..n];
    }
  }

  lemma {:induction false} RoundTraceReads(locals: seq<LocalBinding>, body: Expr, rounds: seq<Run>)
    ensures ReadsFrom(RoundTrace(locals, body, rounds), Uses(body))
    decreases rounds
  {
    if rounds != [] {
      var n := |rounds| - 1;
      RoundTraceReads(locals, body, rounds[..n]);
      TraceReads(body, rounds[n]);
    }
  }

  lemma ClosedConcat(t1: seq<Event>, t2: seq<Event>, scope: set<LocalBinding>, inner: set<LocalBinding>)
    requires Closed(t1, scope) && Closed(t2, inner)
    requires forall b | b in inner && b !in scope :: Bind(b) in t1
    ensures Closed(t1 + t2, scope)
  {
    var t := t1 + t2;
    forall j | 0 <= j < |t| && t[j].Read? && t[j].u.b !in scope ensures Bind(t[j].u.b) in t[..j] {
      if j < |t1| {
        assert t[..j] == t1[..j];
      } else {
        assert t[..j] == t1 + t2[..j - |t1|];
      }
    }
  }

  lemma NothingReads(t: seq<Event>, scope: set<LocalBinding>)
    requires |t| == 0 || (|t| == 1 && (t[0].Read? ==> t[0].u.b in scope))
    ensures Closed(t, scope) && Sound(t)
  {
  }

  lemma {:induction false} TraceClosed(e: Expr, run: Run, scope: set<LocalBinding>)
    requires Arranged(e, scope)
    ensures Closed(Trace(e, run), scope)
    decreases run
  {
    hide Closed;
    NothingReads([], scope);
    match e
    case Global =>
    case LocalUse(u) => NothingReads([Read(u)], scope);
    case Body(es) => if run.BodyRun? && |run.runs| <= |es| { TraceAllClosed(es, run.runs, scope); }
    case IfExpr(test, thenExpr, elseExpr) =>
      if run.IfRun? {
        TraceClosed(test, run.test, scope);
        TraceClosed(if run.takeThen then thenExpr else elseExpr, run.arm, scope);
        ClosedConcat(Trace(test, run.test), Trace(if run.takeThen then thenExpr else elseExpr, run.arm), scope, scope);
      }
    case LoopExpr(locals, inits, body) =>
      if run.LoopRun? && |run.inits| <= |inits| == |locals| {
        InitTraceClosed(locals, inits, run.inits, scope);
        InitTraceReads(locals, inits, run.inits);
        assert InitTrace(locals, inits, run.inits) + [] == InitTrace(locals, inits, run.inits);
        if |run.inits| == |inits| {
          RoundTraceClosed(locals, body, run.rounds, scope + Locals(locals));
          ClosedConcat(InitTrace(locals, inits, run.inits), RoundTrace(locals, body, run.rounds),
                       scope, scope + Locals(locals));
        }
      }
  }

  lemma {:induction false} TraceAllClosed(es: seq<Expr>, runs: seq<Run>, scope: set<LocalBinding>)
    requires |runs| <= |es| && forall i | 0 <= i < |es| :: Arranged(es[i], scope)
    ensures Closed(TraceAll(es, runs), scope)
    decreases runs
  {
    hide Closed;
    NothingReads([], scope);
    if runs != [] {
      var n := |runs| - 1;
      TraceAllClosed(es, runs[..n], scope);
      TraceClosed(es[n], runs[n], scope);
      ClosedConcat(TraceAll(es, runs[..n]), Trace(es[n], runs[n]), scope, scope);
    }
  }

  lemma {:induction false} InitTraceClosed(locals: seq<LocalBinding>, inits: seq<Expr>, runs: seq<Run>,
                                           scope: set<LocalBinding>)
    requires |runs| <= |inits| == |locals|
    requires forall i | 0 <= i < |inits| :: Arranged(inits[i], scope + Locals(locals[..i]))
    ensures Closed(InitTrace(locals, inits, runs), scope)
    decreases runs
  {
    if runs != [] {
      var n := |runs| - 1;
      InitTraceClosed(locals, inits, runs[..n], scope);
      InitTraceReads(locals, inits, runs[..n]);
      TraceClosed(inits[n], runs[n], scope + Locals(locals[..n]));
      var t := InitTrace(locals, inits, runs[..n]);
      ClosedConcat(t, Trace(inits[n], runs[n]), scope, scope + Locals(locals[..n]));
      ClosedConcat(t + Trace(inits[n], runs[n]), [Bind(locals[n])], scope, scope);
    }
  }

  lemma {:induction false} RoundTraceClosed(locals: seq<LocalBinding>, body: Expr, rounds: seq<Run>,
                                            scope: set<LocalBinding>)
    requires Arranged(body, scope)
    ensures Closed(RoundTrace(locals, body, rounds), scope)
    decreases rounds
  {
    if rounds != [] {
      var n := |rounds| - 1;
      RoundTraceClosed(locals, body, rounds[..n], scope);
      TraceClosed(body, rounds[n], scope);
      var binds := if n == 0 then [] else Binds(locals);
      ClosedConcat(binds, Trace(body, rounds[n]), scope, scope);
      ClosedConcat(RoundTrace(locals, body, rounds[..n]), binds + Trace(body, rounds[n]), scope, scope);
    }
  }

  /** Sound parts make a sound whole when each pair across them is settled or has a binding between. */
  lemma SoundConcat(t1: seq<Event>, t2: seq<Event>)
    requires Sound(t1) && Sound(t2)
    requires forall i, j | 0 <= i < |t1| && 0 <= j < |t2| && t1[i].Read? && t2[j].Read? ::
               t1[i].u.b == t2[j].u.b ==> Settled(t1[i].u, t2[j].u) || Bind(t2[j].u.b) in t2[..j]
    ensures Sound(t1 + t2)
  {
    var t, n := t1 + t2, |t1|;
    forall i, j | Again(t, i, j) ensures Settled(t[i].u, t[j].u) {
      if j < n {
        assert forall k | i < k < j :: t[k] == t1[k];
        assert Again(t1, i, j);
      } else if i >= n {
        assert forall k | i < k < j :: t[k] == t2[k - n];
        assert forall k | i - n < k < j - n :: t2[k] == t[k + n];
        assert Again(t2, i - n, j - n);
      } else {
        assert t[i] == t1[i] && t[j] == t2[j - n];
        assert forall k | 0 <= k < j - n :: t2[k] == t[k + n];
      }
    }
  }

  lemma {:induction false} TraceSound(e: Expr, run: Run, scope: set<LocalBinding>)
    requires Arranged(e, scope)
    ensures Sound(Trace(e, run))
    decreases run
  {
    hide Sound;
    NothingReads([], scope);
    match e
    case Global =>
    case LocalUse(u) => NothingReads([Read(u)], scope);
    case Body(es) => if run.BodyRun? && |run.runs| <= |es| { TraceAllSound(es, run.runs, scope); }
    case IfExpr(_, _, _) => if run.IfRun? { IfTraceSound(e, run, scope); }
    case LoopExpr(locals, inits, body) =>
      if run.LoopRun? && |run.inits| <= |inits| == |locals| {
        InitTraceSound(locals, inits, run.inits, scope);
        assert InitTrace(locals, inits, run.inits) + [] == InitTrace(locals, inits, run.inits);
        if |run.inits| == |inits| {
          RoundTraceSound(locals, body, run.rounds, scope);
          LoopPartsSound(locals, inits, body, run.inits, run.rounds);
        }
      }
  }

  lemma {:induction false} IfTraceSound(e: Expr, run: Run, scope: set<LocalBinding>)
    requires Arranged(e, scope) && e.IfExpr? && run.IfRun?
    ensures Sound(Trace(e, run))
    decreases run, 0
  {
    hide Sound, Before, Exclusive, Uses, Settled;
    var arm := if run.takeThen then e.thenExpr else e.elseExpr;
    TraceSound(e.test, run.test, scope);
    TraceSound(arm, run.arm, scope);
    TraceReads(e.test, run.test);
    TraceReads(arm, run.arm);
    AllSettled(e.test, arm);
    SoundConcat(Trace(e.test, run.test), Trace(arm, run.arm));
  }

  /** The initial values and the rounds, each by themselves in order. */
  lemma LoopPartsSound(locals: seq<LocalBinding>, inits: seq<Expr>, body: Expr, runs: seq<Run>, rounds: seq<Run>)
    requires |runs| == |inits| == |locals| && forall i | 0 <= i < |inits| :: Before(inits[i], body)
    requires Sound(InitTrace(locals, inits, runs)) && Sound(RoundTrace(locals, body, rounds))
    ensures Sound(InitTrace(locals, inits, runs) + RoundTrace(locals, body, rounds))
  {
    hide Sound, Before;
    InitTraceReads(locals, inits, runs);
    RoundTraceReads(locals, body, rounds);
    assert inits[..|inits|] == inits;
    AllBefore(inits, |inits|, body);
    SoundConcat(InitTrace(locals, inits, runs), RoundTrace(locals, body, rounds));
  }

  lemma AllSettled(e: Expr, f: Expr)
    requires Before(e, f)
    ensures forall u, v | u in Uses(e) && v in Uses(f) && u.b == v.b :: Settled(u, v)
  {
    hide MayBothRun;
  }

  /** If each of the first `n` parts comes before `f`, so do all their uses. */
  lemma {:induction false} AllBefore(es: seq<Expr>, n: nat, f: Expr)
    requires n <= |es| && forall i | 0 <= i < n :: Before(es[i], f)
    ensures forall u, v | u in UsesOf(es[..n]) && v in Uses(f) && u.b == v.b :: Settled(u, v)
  {
    if n > 0 {
      AllBefore(es, n - 1, f);
      assert es[..n][..n - 1] == es[..n - 1];
      AllSettled(es[n - 1], f);
    }
  }

  lemma {:induction false} TraceAllSound(es: seq<Expr>, runs: seq<Run>, scope: set<LocalBinding>)
    requires |runs| <= |es| && InOrder(es) && forall i | 0 <= i < |es| :: Arranged(es[i], scope)
    ensures Sound(TraceAll(es, runs))
    decreases runs
  {
    if runs != [] {
      var n := |runs| - 1;
      TraceAllSound(es, runs[..n], scope);
      TraceSound(es[n], runs[n], scope);
      TraceAllReads(es, runs[..n]);
      TraceReads(es[n], runs[n]);
      AllBefore(es, n, es[n]);
      SoundConcat(TraceAll(es, runs[..n]), Trace(es[n], runs[n]));
    }
  }

  lemma {:induction false} InitTraceSound(locals: seq<LocalBinding>, inits: seq<Expr>, runs: seq<Run>,
                                          scope: set<LocalBinding>)
    requires |runs| <= |inits| == |locals| && InOrder(inits)
    requires forall i | 0 <= i < |inits| :: Arranged(inits[i], scope + Locals(locals[..i]))
    ensures Sound(InitTrace(locals, inits, runs))
    decreases runs
  {
    if runs != [] {
      var n := |runs| - 1;
      InitTraceSound(locals, inits, runs[..n], scope);
      TraceSound(inits[n], runs[n], scope + Locals(locals[..n]));
      InitTraceReads(locals, inits, runs[..n]);
      TraceReads(inits[n], runs[n]);
      AllBefore(inits, n, inits[n]);
      SoundConcat(InitTrace(locals, inits, runs[..n]), Trace(inits[n], runs[n]));
      SoundConcat(InitTrace(locals, inits, runs[..n]) + Trace(inits[n], runs[n]), [Bind(locals[n])]);
    }
  }

  /** Across rounds: outer locals are not owned, the loop's own are bound again, and those of inner
      loops are bound inside the later round. */
  lemma {:induction false} RoundTraceSound(locals: seq<LocalBinding>, body: Expr, rounds: seq<Run>,
                                           scope: set<LocalBinding>)
    requires Arranged(body, scope + Locals(locals))
    requires forall u | u in Uses(body) && u.b in scope :: !u.Owned()
    ensures Sound(RoundTrace(locals, body, rounds))
    decreases rounds
  {
    if rounds != [] {
      var n := |rounds| - 1;
      var t1, t := RoundTrace(locals, body, rounds[..n]), Trace(body, rounds[n]);
      var binds := if n == 0 then [] else Binds(locals);
      RoundTraceSound(locals, body, rounds[..n], scope);
      TraceSound(body, rounds[n], scope + Locals(locals));
      TraceClosed(body, rounds[n], scope + Locals(locals));
      RoundTraceReads(locals, body, rounds[..n]);
      SoundConcat(binds, t);
      forall i, j | 0 <= i < |t1| && 0 <= j < |binds + t| && t1[i].Read? && (binds + t)[j].Read?
        ensures t1[i].u.b == (binds + t)[j].u.b ==>
                  Settled(t1[i].u, (binds + t)[j].u) || Bind((binds + t)[j].u.b) in (binds + t)[..j]
      {
        var b := (binds + t)[j].u.b;
        assert (binds + t)[..j] == binds + t[..j - |binds|];
        assert t1[i] in t1;
        if b in locals {
          var k :| 0 <= k < |locals| && locals[k] == b;
          assert binds[k] == Bind(b);
        }
      }
      SoundConcat(t1, binds + t);
    }
  }

  /** In every run, a use that clears its local is the last one before the local is bound again. */
  lemma ClearsSafely(e: Expr, run: Run, scope: set<LocalBinding>, uses: set<LocalBindingExpr>)
    requires Arranged(e, scope) && Uses(e) <= uses && Marked(uses)
    ensures forall i, j | Again(Trace(e, run), i, j) :: !Trace(e, run)[i].u.shouldClear
  {
    var t := Trace(e, run);
    TraceSound(e, run, scope);
    TraceReads(e, run);
    forall i, j | Again(t, i, j) ensures !t[i].u.shouldClear {
      assert t[i] in t && t[j] in t;
    }
  }

  // ---- A use that nothing follows ----

  /** The locals that the loops of `e` bind. */
  ghost function Binders(e: Expr): set<LocalBinding>
    decreases e
  {
    match e
    case Global => {}
    case LocalUse(_) => {}
    case Body(es) => BindersOf(es)
    case IfExpr(test, thenExpr, elseExpr) => Binders(test) + Binders(thenExpr) + Binders(elseExpr)
    case LoopExpr(locals, inits, body) => BindersOf(inits) + Locals(locals) + Binders(body)
  }

  ghost function BindersOf(es: seq<Expr>): set<LocalBinding>
    decreases es
  {
    if es == [] then {} else BindersOf(es[..|es| - 1]) + Binders(es[|es| - 1])
  }

  ghost predicate Apart(es: seq<Expr>) {
    forall i, j | 0 <= i < j < |es| :: Binders(es[i]) !! Binders(es[j])
  }

  /** No local is bound in two places. */
  ghost predicate Separate(e: Expr)
    decreases e
  {
    match e
    case Global => true
    case LocalUse(_) => true
    case Body(es) => Apart(es) && forall i | 0 <= i < |es| :: Separate(es[i])
    case IfExpr(test, thenExpr, elseExpr) =>
      && Separate(test) && Separate(thenExpr) && Separate(elseExpr)
      && Binders(test) !! Binders(thenExpr) && Binders(test) !! Binders(elseExpr)
    case LoopExpr(locals, inits, body) =>
      && Apart(inits) && Separate(body) && Locals(locals) !! Binders(body)
      && (forall i | 0 <= i < |inits| ::
            Separate(inits[i]) && Binders(inits[i]) !! Locals(locals) && Binders(inits[i]) !! Binders(body))
      && forall i, j | 0 <= i < j < |locals| :: locals[i] != locals[j]
  }

  /** A run to the end: no part stops, and every loop goes round at least once. */
  ghost predicate Complete(e: Expr, run: Run)
    decreases run
  {
    match e
    case Global => !run.Stop?
    case LocalUse(_) => !run.Stop?
    case Body(es) => run.BodyRun? && |run.runs| == |es| && forall i | 0 <= i < |es| :: Complete(es[i], run.runs[i])
    case IfExpr(test, thenExpr, elseExpr) =>
      run.IfRun? && Complete(test, run.test) && Complete(if run.takeThen then thenExpr else elseExpr, run.arm)
    case LoopExpr(locals, inits, body) =>
      && run.LoopRun? && |run.inits| == |inits| && (forall i | 0 <= i < |inits| :: Complete(inits[i], run.inits[i]))
      && run.rounds != [] && forall i | 0 <= i < |run.rounds| :: Complete(body, run.rounds[i])
  }

  /** The run that takes the arms with uses of `us` in them, and goes round every loop once. */
  ghost function Towards(e: Expr, us: set<LocalBindingExpr>): (run: Run)
    ensures Complete(e, run)
    decreases e
  {
    match e
    case Global => Leaf
    case LocalUse(_) => Leaf
    case Body(es) => BodyRun(AllTowards(es, us))
    case IfExpr(test, thenExpr, elseExpr) =>
      var takeThen := Uses(thenExpr) * us != {};
      IfRun(Towards(test, us), takeThen, if takeThen then Towards(thenExpr, us) else Towards(elseExpr, us))
    case LoopExpr(_, inits, body) => LoopRun(AllTowards(inits, us), [Towards(body, us)])
  }

  ghost function AllTowards(es: seq<Expr>, us: set<LocalBindingExpr>): (runs: seq<Run>)
    ensures |runs| == |es| && forall i | 0 <= i < |es| :: runs[i] == Towards(es[i], us) && Complete(es[i], runs[i])
    decreases es
  {
    seq(|es|, i requires 0 <= i < |es| => Towards(es[i], us))
  }

  /** Uses are read in the order they were analysed in, and no local is bound twice. */
  ghost predicate Orderly(t: seq<Event>) {
    && (forall i, j | 0 <= i < j < |t| && t[i].Read? && t[j].Read? :: t[i].u.stamp < t[j].u.stamp)
    && forall i, j | 0 <= i < j < |t| && t[i].Bind? && t[j].Bind? :: t[i].b != t[j].b
  }

  ghost predicate BindsFrom(t: seq<Event>, binders: set<LocalBinding>) {
    forall e | e in t && e.Bind? :: e.b in binders
  }

  lemma OrderlyConcat(t1: seq<Event>, t2: seq<Event>, b1: set<LocalBinding>, b2: set<LocalBinding>)
    requires Orderly(t1) && Orderly(t2) && BindsFrom(t1, b1) && BindsFrom(t2, b2) && b1 !! b2
    requires forall e, f | e in t1 && f in t2 && e.Read? && f.Read? :: e.u.stamp < f.u.stamp
    ensures Orderly(t1 + t2) && BindsFrom(t1 + t2, b1 + b2)
  {
    var t, n := t1 + t2, |t1|;
    forall i, j | 0 <= i < j < |t|
      ensures t[i].Read? && t[j].Read? ==> t[i].u.stamp < t[j].u.stamp
      ensures t[i].Bind? && t[j].Bind? ==> t[i].b != t[j].b
    {
      if i < n <= j { assert t[i] == t1[i] && t[i] in t1 && t[j] == t2[j - n] && t[j] in t2; }
    }
  }

  ghost predicate RunOrderly(e: Expr, us: set<LocalBindingExpr>) {
    Orderly(Trace(e, Towards(e, us))) && BindsFrom(Trace(e, Towards(e, us)), Binders(e))
  }

  lemma {:induction false} EarlierUses(es: seq<Expr>, n: nat, f: Expr)
    requires n <= |es| && forall i | 0 <= i < n :: Before(es[i], f)
    ensures forall u, v | u in UsesOf(es[..n]) && v in Uses(f) :: u.stamp < v.stamp
  {
    if n > 0 {
      EarlierUses(es, n - 1, f);
      assert es[..n][..n - 1] == es[..n - 1];
    }
  }

  lemma {:induction false} BindersApart(es: seq<Expr>, n: nat, others: set<LocalBinding>)
    requires n <= |es| && forall i | 0 <= i < n :: Binders(es[i]) !! others
    ensures BindersOf(es[..n]) !! others
  {
    if n > 0 {
      BindersApart(es, n - 1, others);
      assert es[..n][..n - 1] == es[..n - 1];
    }
  }

  lemma {:induction false} AllTowardsOrderly(es: seq<Expr>, us: set<LocalBindingExpr>, n: nat)
    requires n <= |es| && InOrder(es) && Apart(es) && forall i | 0 <= i < |es| :: RunOrderly(es[i], us)
    ensures var t := TraceAll(es, AllTowards(es, us)[..n]); Orderly(t) && BindsFrom(t, BindersOf(es[..n]))
  {
    hide Before, Orderly, Uses, Binders;
    var runs := AllTowards(es, us);
    if n == 0 {
      NothingOrderly();
    } else {
      AllTowardsOrderly(es, us, n - 1);
      assert runs[..n][..n - 1] == runs[..n - 1] && es[..n][..n - 1] == es[..n - 1];
      EarlierUses(es, n - 1, es[n - 1]);
      BindersApart(es, n - 1, Binders(es[n - 1]));
      TraceAllReads(es, runs[..n - 1]);
      TraceReads(es[n - 1], runs[n - 1]);
      assert RunOrderly(es[n - 1], us);
      OrderlyConcat(TraceAll(es, runs[..n - 1]), Trace(es[n - 1], runs[n - 1]), BindersOf(es[..n - 1]),
                    Binders(es[n - 1]));
    }
  }

  lemma NothingOrderly()
    ensures Orderly([]) && BindsFrom([], {})
  {
  }

  lemma OrderlyBind(t: seq<Event>, b: LocalBinding, binders: set<LocalBinding>)
    requires Orderly(t) && BindsFrom(t, binders) && b !in binders
    ensures Orderly(t + [Bind(b)]) && BindsFrom(t + [Bind(b)], binders + {b})
  {
    OrderlyConcat(t, [Bind(b)], binders, {b});
  }

  lemma {:induction false} InitTowardsOrderly(locals: seq<LocalBinding>, inits: seq<Expr>, us: set<LocalBindingExpr>,
                                              n: nat)
    requires n <= |inits| == |locals| && InOrder(inits) && Apart(inits)
    requires forall i | 0 <= i < |inits| :: RunOrderly(inits[i], us) && Binders(inits[i]) !! Locals(locals)
    requires forall i, j | 0 <= i < j < |locals| :: locals[i] != locals[j]
    ensures var t := InitTrace(locals, inits, AllTowards(inits, us)[..n]);
            Orderly(t) && BindsFrom(t, BindersOf(inits[..n]) + Locals(locals[..n]))
  {
    hide Before, Orderly, Uses, Binders, BindsFrom;
    var runs := AllTowards(inits, us);
    if n == 0 {
      NothingOrderly();
      assert BindersOf(inits[..n]) + Locals(locals[..n]) == {};
    } else {
      var m := n - 1;
      InitTowardsOrderly(locals, inits, us, m);
      assert runs[..n][..m] == runs[..m] && inits[..n][..m] == inits[..m];
      assert RunOrderly(inits[m], us);
      InitPartOrderly(locals, inits, us, m);
      assert Locals(locals[..n]) == Locals(locals[..m]) + {locals[m]};
      assert BindersOf(inits[..n]) == BindersOf(inits[..m]) + Binders(inits[m]);
      BindersApart(inits, n, {locals[m]});
      var binders := BindersOf(inits[..m]) + Locals(locals[..m]) + Binders(inits[m]);
      var t := InitTrace(locals, inits, runs[..m]) + Trace(inits[m], runs[m]);
      assert InitTrace(locals, inits, runs[..n]) == t + [Bind(locals[m])];
      OrderlyBind(t, locals[m], binders);
      assert binders + {locals[m]} == BindersOf(inits[..n]) + Locals(locals[..n]);
    }
  }

  lemma InitPartOrderly(locals: seq<LocalBinding>, inits: seq<Expr>, us: set<LocalBindingExpr>, m: nat)
    requires m < |inits| == |locals| && InOrder(inits) && Apart(inits) && RunOrderly(inits[m], us)
    requires Binders(inits[m]) !! Locals(locals)
    requires var t := InitTrace(locals, inits, AllTowards(inits, us)[..m]);
             Orderly(t) && BindsFrom(t, BindersOf(inits[..m]) + Locals(locals[..m]))
    ensures var t := InitTrace(locals, inits, AllTowards(inits, us)[..m]) + Trace(inits[m], Towards(inits[m], us));
            Orderly(t) && BindsFrom(t, BindersOf(inits[..m]) + Locals(locals[..m]) + Binders(inits[m]))
  {
    hide Before, Orderly, Uses, Binders, BindsFrom, InitTrace, Trace, Towards;
    var runs := AllTowards(inits, us);
    EarlierUses(inits, m, inits[m]);
    BindersApart(inits, m, Binders(inits[m]));
    InitTraceReads(locals, inits, runs[..m]);
    TraceReads(inits[m], runs[m]);
    OrderlyConcat(InitTrace(locals, inits, runs[..m]), Trace(inits[m], runs[m]),
                  BindersOf(inits[..m]) + Locals(locals[..m]), Binders(inits[m]));
  }

  /** The run is in order. */
  lemma {:induction false} TowardsOrderly(e: Expr, us: set<LocalBindingExpr>, scope: set<LocalBinding>)
    requires Arranged(e, scope) && Separate(e)
    ensures RunOrderly(e, us)
    decreases e, 1
  {
    match e
    case Global => NothingOrderly();
    case LocalUse(u) =>
    case Body(es) =>
      forall i | 0 <= i < |es| ensures RunOrderly(es[i], us) { TowardsOrderly(es[i], us, scope); }
      AllTowardsOrderly(es, us, |es|);
      assert AllTowards(es, us)[..|es|] == AllTowards(es, us) && es[..|es|] == es;
    case IfExpr(_, _, _) => IfTowardsOrderly(e, us, scope);
    case LoopExpr(_, _, _) => LoopTowardsOrderly(e, us, scope);
  }

  lemma {:induction false} IfTowardsOrderly(e: Expr, us: set<LocalBindingExpr>, scope: set<LocalBinding>)
    requires e.IfExpr? && Arranged(e, scope) && Separate(e)
    ensures RunOrderly(e, us)
    decreases e, 0
  {
    hide Orderly;
    var arm := if Uses(e.thenExpr) * us != {} then e.thenExpr else e.elseExpr;
    TowardsOrderly(e.test, us, scope);
    TowardsOrderly(arm, us, scope);
    TraceReads(e.test, Towards(e.test, us));
    TraceReads(arm, Towards(arm, us));
    OrderlyConcat(Trace(e.test, Towards(e.test, us)), Trace(arm, Towards(arm, us)), Binders(e.test), Binders(arm));
  }

  lemma {:induction false} LoopTowardsOrderly(e: Expr, us: set<LocalBindingExpr>, scope: set<LocalBinding>)
    requires e.LoopExpr? && Arranged(e, scope) && Separate(e)
    ensures RunOrderly(e, us)
    decreases e, 0
  {
    hide RunOrderly, Before, Uses, Binders;
    var locals, inits, body := e.locals, e.inits, e.body;
    forall i | 0 <= i < |inits| ensures RunOrderly(inits[i], us) {
      TowardsOrderly(inits[i], us, scope + Locals(locals[..i]));
    }
    TowardsOrderly(body, us, scope + Locals(locals));
    LoopPartsOrderly(locals, inits, body, us);
  }

  lemma LoopPartsOrderly(locals: seq<LocalBinding>, inits: seq<Expr>, body: Expr, us: set<LocalBindingExpr>)
    requires |inits| == |locals| && InOrder(inits) && RunOrderly(body, us) && Separate(LoopExpr(locals, inits, body))
    requires forall i | 0 <= i < |inits| :: RunOrderly(inits[i], us) && Before(inits[i], body)
    ensures RunOrderly(LoopExpr(locals, inits, body), us)
  {
    hide Orderly, BindsFrom, Before, InOrder, Uses, UsesOf, BindersOf;
    var n, runs := |inits|, AllTowards(inits, us);
    InitTowardsOrderly(locals, inits, us, n);
    assert runs[..n] == runs && inits[..n] == inits && locals[..n] == locals;
    InitTraceReads(locals, inits, runs);
    TraceReads(body, Towards(body, us));
    EarlierUses(inits, n, body);
    BindersApart(inits, n, Binders(body));
    OneRound(locals, body, Towards(body, us));
    OrderlyConcat(InitTrace(locals, inits, runs), Trace(body, Towards(body, us)), BindersOf(inits) + Locals(locals),
                  Binders(body));
  }

  lemma OneRound(locals: seq<LocalBinding>, body: Expr, run: Run)
    ensures RoundTrace(locals, body, [run]) == Trace(body, run)
  {
    assert [run][..0] == [];
    assert RoundTrace(locals, body, []) == [];
    assert RoundTrace(locals, body, [run]) == [] + ([] + Trace(body, run));
  }

  lemma {:induction false} UsesPart(es: seq<Expr>, w: LocalBindingExpr) returns (i: nat)
    requires w in UsesOf(es)
    ensures i < |es| && w in Uses(es[i])
  {
    var n := |es| - 1;
    if w in Uses(es[n]) { i := n; } else { i := UsesPart(es[..n], w); }
  }

  lemma {:induction false} PartTrace(es: seq<Expr>, runs: seq<Run>, i: nat, ev: Event)
    requires i < |runs| <= |es| && ev in Trace(es[i], runs[i])
    ensures ev in TraceAll(es, runs)
    decreases |runs|
  {
    var n := |runs| - 1;
    if i < n { PartTrace(es, runs[..n], i, ev); }
  }

  lemma {:induction false} InitPartTrace(locals: seq<LocalBinding>, inits: seq<Expr>, runs: seq<Run>, i: nat, ev: Event)
    requires i < |runs| <= |inits| == |locals| && ev in Trace(inits[i], runs[i])
    ensures ev in InitTrace(locals, inits, runs)
    decreases |runs|
  {
    var n := |runs| - 1;
    if i < n { InitPartTrace(locals, inits, runs[..n], i, ev); }
  }

  /** None of the uses keeps another from running. */
  ghost predicate Compatible(us: set<LocalBindingExpr>) {
    forall u, v | u in us && v in us :: u == v || MayBothRun(u.clearPath, v.clearPath)
  }

  /** The run comes by every use it is meant to. */
  lemma {:induction false} TowardsReads(e: Expr, us: set<LocalBindingExpr>, scope: set<LocalBinding>,
                                        w: LocalBindingExpr)
    requires Arranged(e, scope) && Compatible(us) && w in us && w in Uses(e)
    ensures Read(w) in Trace(e, Towards(e, us))
    decreases e
  {
    hide Before, MayBothRun;
    match e
    case LocalUse(u) =>
    case Body(es) =>
      var i := UsesPart(es, w);
      TowardsReads(es[i], us, scope, w);
      PartTrace(es, AllTowards(es, us), i, Read(w));
    case IfExpr(test, thenExpr, elseExpr) =>
      if w in Uses(test) {
        TowardsReads(test, us, scope, w);
      } else {
        TakesArm(thenExpr, elseExpr, us, w);
        TowardsReads(if Uses(thenExpr) * us != {} then thenExpr else elseExpr, us, scope, w);
      }
    case LoopExpr(locals, inits, body) =>
      OneRound(locals, body, Towards(body, us));
      if w in Uses(body) {
        TowardsReads(body, us, scope + Locals(locals), w);
      } else {
        var i := UsesPart(inits, w);
        TowardsReads(inits[i], us, scope + Locals(locals[..i]), w);
        InitPartTrace(locals, inits, AllTowards(inits, us), i, Read(w));
      }
  }

  /** An arm is taken that has the use, as the other arm has none that is compatible. */
  lemma TakesArm(thenExpr: Expr, elseExpr: Expr, us: set<LocalBindingExpr>, w: LocalBindingExpr)
    requires Exclusive(thenExpr, elseExpr) && Compatible(us) && w in us && w in Uses(thenExpr) + Uses(elseExpr)
    ensures w in Uses(if Uses(thenExpr) * us != {} then thenExpr else elseExpr)
  {
    hide MayBothRun;
    if w in Uses(thenExpr) {
      assert w in Uses(thenExpr) * us;
    } else {
      assert Uses(thenExpr) * us == {};
    }
  }

  lemma MayBothRunSwap(p: PathNode, q: PathNode)
    requires MayBothRun(p, q)
    ensures MayBothRun(q, p)
  {
    var c: PathNode :| DeepestCommon(c, Some(p), Some(q)) && c.kind.PATH?;
    assert DeepestCommon(c, Some(q), Some(p));
  }

  /** If a later use may run after `u`, some run to the end reads the local by `u` and then again. */
  lemma RunsAgain(e: Expr, scope: set<LocalBinding>, u: LocalBindingExpr, v: LocalBindingExpr)
    returns (run: Run, i: nat, j: nat)
    requires Arranged(e, scope) && Separate(e) && Binders(e) !! scope
    requires u in Uses(e) && v in Uses(e) && Succeeds(u, v)
    ensures Complete(e, run) && Again(Trace(e, run), i, j) && Trace(e, run)[i] == Read(u)
  {
    hide Arranged, Separate, Towards, Trace, Closed, Uses, Orderly;
    var us := {u, v};
    MayBothRunSwap(u.clearPath, v.clearPath);
    hide MayBothRun;
    run := Towards(e, us);
    TowardsReads(e, us, scope, u);
    TowardsReads(e, us, scope, v);
    TowardsOrderly(e, us, scope);
    TraceClosed(e, run, scope);
    var t := Trace(e, run);
    i :| i < |t| && t[i] == Read(u);
    j :| j < |t| && t[j] == Read(v);
    ReadAgain(t, scope, Binders(e), u, v, i, j);
  }

  /** In an orderly run, what is bound before a read is not bound again behind it. */
  lemma ReadAgain(t: seq<Event>, scope: set<LocalBinding>, binders: set<LocalBinding>, u: LocalBindingExpr,
                  v: LocalBindingExpr, i: nat, j: nat)
    requires Orderly(t) && BindsFrom(t, binders) && Closed(t, scope) && binders !! scope
    requires u.b == v.b && u.stamp < v.stamp && i < |t| && t[i] == Read(u) && j < |t| && t[j] == Read(v)
    ensures Again(t, i, j)
  {
    if u.b in scope {
      forall k | i < k < j ensures t[k] != Bind(u.b) { assert t[k] in t; }
    } else {
      assert Bind(u.b) in t[..i];
      var l :| 0 <= l < i && t[l] == Bind(u.b);
    }
  }

  /** No run of the code reads the local by `u` and then again before it is bound anew. */
  ghost predicate IsLast(e: Expr, u: LocalBindingExpr) {
    forall run: Run, i, j | Again(Trace(e, run), i, j) :: Trace(e, run)[i].u != u
  }

  /** Some run to the end does. */
  ghost predicate IsFollowed(e: Expr, u: LocalBindingExpr) {
    exists run: Run, i, j :: Complete(e, run) && Again(Trace(e, run), i, j) && Trace(e, run)[i].u == u
  }

  /** A marked use is one that owns its local and is the last in every run; an owned use without mark is
      followed by another one in a run to the end. */
  lemma ClearsExactly(e: Expr, scope: set<LocalBinding>, u: LocalBindingExpr)
    requires Arranged(e, scope) && Separate(e) && Binders(e) !! scope && Marked(Uses(e)) && u in Uses(e)
    ensures u.shouldClear <==> u.Owned() && IsLast(e, u)
    ensures u.Owned() && !u.shouldClear ==> IsFollowed(e, u)
  {
    hide Arranged, Separate, Trace, Uses, Succeeds, Complete;
    if u.shouldClear {
      forall run: Run, i, j | Again(Trace(e, run), i, j) ensures Trace(e, run)[i].u != u {
        ClearsSafely(e, run, scope, Uses(e));
      }
    } else if u.Owned() {
      var v :| v in Uses(e) && Succeeds(u, v);
      var run, i, j := RunsAgain(e, scope, u, v);
    }
  }

  // ---- Where locals are owned ----

  /** The uses of `e` that may clear their local: in the body of a loop those of the loop's own locals, and
      outside of loop bodies those of the locals `own`. Local 0, the function itself, is never cleared. */
  ghost function Region(e: Expr, own: set<LocalBinding>): (r: set<LocalBindingExpr>)
    ensures r <= Uses(e)
    decreases e
  {
    match e
    case Global => {}
    case LocalUse(u) => if u.b in own && u.b.index > 0 then {u} else {}
    case Body(es) => RegionOf(es, own)
    case IfExpr(test, thenExpr, elseExpr) => Region(test, own) + Region(thenExpr, own) + Region(elseExpr, own)
    case LoopExpr(locals, inits, body) => RegionOf(inits, own) + Region(body, Locals(locals))
  }

  ghost function RegionOf(es: seq<Expr>, own: set<LocalBinding>): (r: set<LocalBindingExpr>)
    ensures r <= UsesOf(es)
    decreases es
  {
    if es == [] then {} else RegionOf(es[..|es| - 1], own) + Region(es[|es| - 1], own)
  }

  /** Exactly the uses of the region own their local. */
  ghost predicate Regional(e: Expr, own: set<LocalBinding>) {
    forall u | u in Uses(e) :: u.Owned() <==> u in Region(e, own)
  }

  lemma {:induction false} RegionalOf(es: seq<Expr>, own: set<LocalBinding>)
    requires forall i | 0 <= i < |es| :: Regional(es[i], own)
    ensures forall u | u in UsesOf(es) :: u.Owned() <==> u in RegionOf(es, own)
  {
    hide Region, LocalBindingExpr.Owned;
    if es != [] { RegionalOf(es[..|es| - 1], own); }
  }

  lemma RegionalBody(es: seq<Expr>, own: set<LocalBinding>)
    requires forall i | 0 <= i < |es| :: Regional(es[i], own)
    ensures Regional(Body(es), own)
  {
    hide LocalBindingExpr.Owned;
    RegionalOf(es, own);
  }

  lemma RegionalIf(test: Expr, thenExpr: Expr, elseExpr: Expr, own: set<LocalBinding>)
    requires Regional(test, own) && Regional(thenExpr, own) && Regional(elseExpr, own)
    ensures Regional(IfExpr(test, thenExpr, elseExpr), own)
  {
    hide LocalBindingExpr.Owned;
  }

  lemma RegionalLoop(locals: seq<LocalBinding>, inits: seq<Expr>, body: Expr, own: set<LocalBinding>)
    requires forall i | 0 <= i < |inits| :: Regional(inits[i], own)
    requires Regional(body, Locals(locals))
    ensures Regional(LoopExpr(locals, inits, body), own)
  {
    hide LocalBindingExpr.Owned;
    RegionalOf(inits, own);
  }
}
