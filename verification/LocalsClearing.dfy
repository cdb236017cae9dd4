/** The locals-clearing analysis (src/Compiler.c:271-300, 352-364, 1045-1097, 1368-1446, 1680-1714).

    Every use remembers the path node it was analysed under. It is marked as clearing its local when
    it is created, and loses the mark when a later use turns up that may run after it. The arms of
    an `if` hang below one BRANCH node, so uses in different arms leave each other alone; a loop has
    path nodes of its own, and inside it only the loop's own locals are cleared. */
module LocalsClearing {
  import opened LocalUses
  import opened PathNodes
  import opened Wrappers

  datatype Form =
    | Name(name: string)
    | Do(forms: seq<Form>)
    | If(test: Form, yes: Form, no: Form)
    | Loop(bindings: seq<Binding>, body: Form)

  datatype Binding = Binding(name: string, init: Form)

  function NamesOf(bindings: seq<Binding>): (names: seq<string>)
    ensures |names| == |bindings| && forall i | 0 <= i < |names| :: names[i] == bindings[i].name
  {
    seq(|bindings|, i requires 0 <= i < |bindings| => bindings[i].name)
  }

  /** The names in scope after the first `n` of `names` are bound. */
  function Extended(env: map<string, LocalBinding>, names: seq<string>, locals: seq<LocalBinding>,
                    n: nat): map<string, LocalBinding>
    requires n <= |names| && n <= |locals|
  {
    if n == 0 then env else Extended(env, names, locals, n - 1)[names[n - 1] := locals[n - 1]]
  }

  /** `e` is the analysed `form`, each name standing for the local it is bound to. */
  ghost predicate Represents(e: Expr, form: Form, env: map<string, LocalBinding>)
    decreases form
  {
    match form
    case Name(name) => if name in env then e.LocalUse? && e.u.b == env[name] else e.Global?
    case Do(forms) => e.Body? && |e.es| == |forms| && forall i | 0 <= i < |forms| :: Represents(e.es[i], forms[i], env)
    case If(test, yes, no) =>
      e.IfExpr? && Represents(e.test, test, env) && Represents(e.thenExpr, yes, env) && Represents(e.elseExpr, no, env)
    case Loop(bindings, body) =>
      && e.LoopExpr? && |e.inits| == |e.locals| == |bindings|
      && (forall i | 0 <= i < |bindings| ::
        Represents(e.inits[i], bindings[i].init, Extended(env, NamesOf(bindings), e.locals, i)))
      && Represents(e.body, body, Extended(env, NamesOf(bindings), e.locals, |bindings|))
  }

  /** The locals registered in the region `root`. */
  ghost function Own(scope: set<LocalBinding>, root: PathNode): set<LocalBinding> {
    set b | b in scope && b.clearPathRoot == root
  }

  /** What the analysis of `form` at `path`, in the region `root` and from time `lo` to `hi`, has made of it. */
  ghost predicate Analyzed(e: Expr, form: Form, env: map<string, LocalBinding>, scope: set<LocalBinding>,
                           path: PathNode, root: PathNode, lo: nat, hi: nat) {
    && Arranged(e, scope) && Represents(e, form, env) && Separate(e) && Regional(e, Own(scope, root))
    && AllPlaced(Uses(e), path, root, lo, hi)
  }

  /** The parts analysed so far. */
  ghost predicate AllAnalyzed(es: seq<Expr>, forms: seq<Form>, env: map<string, LocalBinding>,
                              scope: set<LocalBinding>, path: PathNode, root: PathNode, lo: nat, hi: nat) {
    && |es| <= |forms| && InOrder(es) && Apart(es)
    && forall k | 0 <= k < |es| :: Analyzed(es[k], forms[k], env, scope, path, root, lo, hi)
  }

  /** Parts stay apart when one is added that binds other locals. */
  lemma ApartNext(es: seq<Expr>, next: Expr)
    requires Apart(es) && BindersOf(es) !! Binders(next)
    ensures Apart(es + [next]) && BindersOf(es + [next]) == BindersOf(es) + Binders(next)
  {
    hide Binders;
    assert (es + [next])[..|es|] == es;
    forall i | 0 <= i < |es| ensures Binders(es[i]) !! Binders(next) { BindersPart(es, i); }
  }

  lemma {:induction false} BindersPart(es: seq<Expr>, i: nat)
    requires i < |es|
    ensures Binders(es[i]) <= BindersOf(es)
  {
    hide Binders;
    if i < |es| - 1 { BindersPart(es[..|es| - 1], i); }
  }

  /** `p` hangs below `top`, by nodes made from time `lo` to before `hi`. */
  ghost predicate Within(top: PathNode, p: PathNode, lo: nat, hi: nat) {
    OnPath(top, Some(p)) && forall a: PathNode | OnPath(a, Some(p)) :: OnPath(a, Some(top)) || lo <= a.stamp < hi
  }

  /** Made from time `lo` to before `hi` below `path`, in the region `root` or a newer one. */
  ghost predicate Placed(u: LocalBindingExpr, path: PathNode, root: PathNode, lo: nat, hi: nat) {
    lo <= u.stamp < hi && Within(path, u.clearPath, lo, hi) && (u.clearRoot == root || u.clearRoot.stamp >= lo)
  }

  ghost predicate AllPlaced(uses: set<LocalBindingExpr>, path: PathNode, root: PathNode, lo: nat, hi: nat) {
    forall u | u in uses :: Placed(u, path, root, lo, hi)
  }

  /** Uses made one after the other below one PATH node may both run. The later ones may hang below a
      node `below` of their own, made before either or between. */
  lemma PlacedBefore(e: Expr, f: Expr, path: PathNode, below: PathNode, root: PathNode, root': PathNode,
                     lo: nat, hi: nat, lo': nat, hi': nat)
    requires path.kind.PATH? && hi <= lo'
    requires OnPath(path, Some(below))
    requires forall a: PathNode | OnPath(a, Some(below)) && lo <= a.stamp < hi :: OnPath(a, Some(path))
    requires AllPlaced(Uses(e), path, root, lo, hi) && AllPlaced(Uses(f), below, root', lo', hi')
    ensures Before(e, f)
  {
    forall u, v | u in Uses(e) && v in Uses(f)
      ensures u.stamp < v.stamp && MayBothRun(u.clearPath, v.clearPath)
    {
      assert Placed(u, path, root, lo, hi) && Placed(v, below, root', lo', hi');
      OnPathTransitive(path, below, Some(v.clearPath));
      assert DeepestCommon(path, Some(u.clearPath), Some(v.clearPath));
    }
  }

  lemma {:induction false} AllPlacedOf(es: seq<Expr>, path: PathNode, root: PathNode, lo: nat, hi: nat)
    requires forall i | 0 <= i < |es| :: AllPlaced(Uses(es[i]), path, root, lo, hi)
    ensures AllPlaced(UsesOf(es), path, root, lo, hi)
  {
    if es != [] { AllPlacedOf(es[..|es| - 1], path, root, lo, hi); }
  }

  class Analyzer {
    var clearPath: PathNode
    var clearRoot: PathNode
    var sites: map<LocalBinding, seq<LocalBindingExpr>>
    var nextLocal: nat
    /** Counts allocations. */
    var clock: nat
    ghost var made: set<LocalBindingExpr>
    ghost var registered: set<LocalBinding>

    ghost predicate Valid()
      reads this, made
    {
      && clearPath.kind.PATH? && clearPath.stamp < clock && clearRoot.stamp < clock
      && Marked(made)
      && (forall u | u in made :: u.stamp < clock) && Sited(made)
    }

    /** `CLEAR_SITES` has the owned uses, each under its local. */
    ghost predicate Sited(uses: set<LocalBindingExpr>)
      reads this`sites
    {
      && (forall u | u in uses && u.Owned() :: u.b in sites && u in sites[u.b])
      && forall b | b in sites :: forall u | u in sites[b] :: u in uses && u.b == b
    }

    /** Where the analysis stands; `AnalyzeForm` leaves it as it was. */
    ghost function Place(): (PathNode, PathNode, nat)
      reads this
    {
      (clearPath, clearRoot, nextLocal)
    }

    /** A method is analysed under a PATH node of its own, with no sites. */
    constructor ()
      ensures Valid() && clearPath == clearRoot && nextLocal == 0 && made == {} && registered == {}
    {
      clearPath := PathNode(0, PATH, None);
      clearRoot := PathNode(0, PATH, None);
      sites, nextLocal, clock, made, registered := map[], 0, 1, {}, {};
    }

    method NewPathNode(kind: PathType, parent: PathNode) returns (p: PathNode)
      modifies this`clock
      ensures p == PathNode(old(clock), kind, Some(parent)) && clock == old(clock) + 1
    {
      p := PathNode(clock, kind, Some(parent));
      clock := clock + 1;
    }

    /** A new local takes the next index and the current region. */
    method RegisterLocal() returns (b: LocalBinding)
      modifies this`nextLocal, this`registered
      ensures fresh(b) && b.index == old(nextLocal) && b.clearPathRoot == clearRoot && nextLocal == old(nextLocal) + 1
      ensures registered == old(registered) + {b} && b !in old(registered)
    {
      b := new LocalBinding(nextLocal, clearRoot);
      nextLocal := nextLocal + 1;
      registered := registered + {b};
    }

    /** The loop over the earlier sites of a local. */
    static method Unmark(list: seq<LocalBindingExpr>, r: LocalBindingExpr)
      requires r !in list
      modifies (set u | u in list)`shouldClear
      ensures forall u | u in list :: u.shouldClear <==> old(u.shouldClear) && !MayBothRun(u.clearPath, r.clearPath)
    {
      var i := 0;
      while i < |list|
        invariant i <= |list|
        invariant forall u | u in list :: u.shouldClear <==>
                    old(u.shouldClear) && (u in list[..i] ==> !MayBothRun(u.clearPath, r.clearPath))
      {
        var common := CommonPath(Some(r.clearPath), Some(list[i].clearPath));
        Meeting(list[i].clearPath, r.clearPath, common);
        if common.Some? && common.value.kind.PATH? {
          list[i].shouldClear := false;
        }
        i := i + 1;
      }
      assert list[..|list|] == list;
    }

    /** `NewLocalBindingExpr`: the new use takes the mark from every earlier use it may run after, and
        is marked itself if it owns the local. */
    method NewLocalBindingExpr(b: LocalBinding) returns (r: LocalBindingExpr)
      requires Valid()
      modifies this`sites, this`clock, this`made, made, b
      ensures Valid() && fresh(r) && made == old(made) + {r} && clock == old(clock) + 1 && b.used
      ensures r.b == b && r.clearPath == clearPath && r.clearRoot == clearRoot && r.stamp == old(clock)
      ensures r.shouldClear == r.Owned()
      ensures forall u | u in old(made) :: u.shouldClear <==> old(u.shouldClear) && !Succeeds(u, r)
    {
      hide MayBothRun, Succeeds, Marked;
      ghost var before := set u | u in made && u.shouldClear;
      ghost var uses := made;
      MarkedBefore(uses, before);
      r := new LocalBindingExpr(b, clearPath, clearRoot, clock);
      clock := clock + 1;
      b.used := true;
      if b.index > 0 { TakeMarks(b, r); }
      made := made + {r};
      MarkedNext(uses, r, before);
    }

    /** The part of it that concerns the marks of the local's sites. */
    method TakeMarks(b: LocalBinding, r: LocalBindingExpr)
      requires b.index > 0 && r !in made && r.b == b && !r.shouldClear && Sited(made)
      requires forall u | u in made && u.shouldClear :: u.Owned()
      modifies this`sites, made`shouldClear, r`shouldClear
      ensures (r.shouldClear <==> r.Owned()) && Sited(made + {r})
      ensures forall u | u in made :: u.shouldClear <==>
                old(u.shouldClear) && !(u.Owned() && u.b == b && MayBothRun(u.clearPath, r.clearPath))
    {
      hide MayBothRun;
      var list := if b in sites then sites[b] else [];
      Unmark(list, r);
      if r.clearRoot == b.clearPathRoot {
        r.shouldClear := true;
        sites := sites[b := [r] + list];
      }
    }

    method AnalyzeForm(form: Form, env: map<string, LocalBinding>, ghost scope: set<LocalBinding>) returns (e: Expr)
      requires Valid() && Scoped(env, scope)
      modifies this, made, env.Values
      ensures Valid() && Place() == old(Place()) && clock >= old(clock)
      ensures made == old(made) + Uses(e) && fresh(Uses(e))
      ensures registered == old(registered) + Binders(e) && old(registered) !! Binders(e)
      ensures Analyzed(e, form, env, scope, clearPath, clearRoot, old(clock), clock)
      decreases form, 2
    {
      match form
      case Name(name) =>
        if name in env {
          var r := NewLocalBindingExpr(env[name]);
          e := LocalUse(r);
        } else {
          e := Global;
        }
      case Do(forms) => e := AnalyzeAll(form, env, scope);
      case If(test, yes, no) => e := ParseIf(form, env, scope);
      case Loop(bindings, body) => e := ParseLoop(form, env, scope);
    }

    /** Parts that run one after the other, such as the arguments of a call. */
    method AnalyzeAll(form: Form, env: map<string, LocalBinding>, ghost scope: set<LocalBinding>) returns (e: Expr)
      requires form.Do? && Valid() && Scoped(env, scope)
      modifies this, made, env.Values
      ensures Valid() && Place() == old(Place()) && clock >= old(clock)
      ensures made == old(made) + Uses(e) && fresh(Uses(e))
      ensures registered == old(registered) + Binders(e) && old(registered) !! Binders(e)
      ensures Analyzed(e, form, env, scope, clearPath, clearRoot, old(clock), clock)
      decreases form, 0
    {
      hide Marked, AllAnalyzed, Analyzed, InOrder, Apart, Uses, Binders, Sited;
      ghost var path, root := clearPath, clearRoot;
      var es: seq<Expr>, i := [], 0;
      NothingAnalyzed(form.forms, env, scope, path, root, clock);
      while i < |form.forms|
        invariant i <= |form.forms| && |es| == i
        invariant Valid() && Place() == old(Place()) && clock >= old(clock)
        invariant made == old(made) + UsesOf(es) && fresh(UsesOf(es))
        invariant registered == old(registered) + BindersOf(es) && old(registered) !! BindersOf(es)
        invariant AllAnalyzed(es, form.forms, env, scope, path, root, old(clock), clock)
      {
        ghost var now := clock;
        var next := AnalyzeForm(form.forms[i], env, scope);
        AnalyzedNext(es, next, form.forms, env, scope, path, root, old(clock), now, clock);
        es := es + [next];
        i := i + 1;
      }
      e := Body(es);
      BodyAnalyzed(es, form.forms, env, scope, path, root, old(clock), clock);
      assert form == Do(form.forms);
    }

    /** The analysis of `form` under another node and in another region, which lasts just that long. */
    method AnalyzeUnder(form: Form, env: map<string, LocalBinding>, ghost scope: set<LocalBinding>,
                        path: PathNode, root: PathNode) returns (e: Expr)
      requires Valid() && Scoped(env, scope) && path.kind.PATH? && path.stamp < clock && root.stamp < clock
      modifies this, made, env.Values
      ensures Valid() && Place() == old(Place()) && clock >= old(clock)
      ensures made == old(made) + Uses(e) && fresh(Uses(e))
      ensures registered == old(registered) + Binders(e) && old(registered) !! Binders(e)
      ensures Analyzed(e, form, env, scope, path, root, old(clock), clock)
      decreases form, 3
    {
      hide Marked, Analyzed;
      var savedPath, savedRoot, savedLocal := clearPath, clearRoot, nextLocal;
      clearPath, clearRoot := path, root;
      e := AnalyzeForm(form, env, scope);
      clearPath, clearRoot, nextLocal := savedPath, savedRoot, savedLocal;
    }

    /** `parseIfExpr`: the test under the current node, each arm under a node of its own below a new
        branch. */
    method ParseIf(form: Form, env: map<string, LocalBinding>, ghost scope: set<LocalBinding>) returns (e: Expr)
      requires form.If? && Valid() && Scoped(env, scope)
      modifies this, made, env.Values
      ensures Valid() && Place() == old(Place()) && clock >= old(clock)
      ensures made == old(made) + Uses(e) && fresh(Uses(e))
      ensures registered == old(registered) + Binders(e) && old(registered) !! Binders(e)
      ensures Analyzed(e, form, env, scope, clearPath, clearRoot, old(clock), clock)
      decreases form, 0
    {
      hide Marked, Analyzed, Sited;
      ghost var start := clock;
      var branch := NewPathNode(BRANCH, clearPath);
      ghost var lo := clock;
      var test := AnalyzeForm(form.test, env, scope);
      ghost var hi := clock;
      var yes := NewPathNode(PATH, branch);
      ghost var lo' := clock;
      var thenExpr := AnalyzeUnder(form.yes, env, scope, yes, clearRoot);
      ghost var hi' := clock;
      var no := NewPathNode(PATH, branch);
      ghost var lo'' := clock;
      var elseExpr := AnalyzeUnder(form.no, env, scope, no, clearRoot);
      e := IfExpr(test, thenExpr, elseExpr);
      assert form == If(form.test, form.yes, form.no);
      IfAnalyzed(test, thenExpr, elseExpr, form, env, scope, clearPath, branch, yes, no, clearRoot, start, lo, hi, lo',
                 hi', lo'', clock);
    }

    /** One binding of a loop: the initial value and the local. */
    method ParseBinding(form: Form, env: map<string, LocalBinding>, ghost scope: set<LocalBinding>,
                        loopPath: PathNode, loopRoot: PathNode) returns (init: Expr, local: LocalBinding)
      requires Valid() && Scoped(env, scope) && loopPath.kind.PATH?
      requires loopPath.stamp < clock && loopRoot.stamp < clock
      modifies this, made, env.Values
      ensures Valid() && clearPath == old(clearPath) && clearRoot == old(clearRoot) && clock >= old(clock)
      ensures made == old(made) + Uses(init) && fresh(Uses(init))
      ensures registered == old(registered) + Binders(init) + {local}
      ensures old(registered) !! Binders(init) + {local} && local !in Binders(init)
      ensures Analyzed(init, form, env, scope, clearPath, clearRoot, old(clock), clock)
      ensures fresh(local) && local.clearPathRoot == loopRoot
      decreases form, 3
    {
      hide Marked, Analyzed, Uses, Binders, Sited;
      var path, root := clearPath, clearRoot;
      init := AnalyzeForm(form, env, scope);
      clearPath, clearRoot := loopPath, loopRoot;
      local := RegisterLocal();
      clearPath, clearRoot := path, root;
    }

    /** The bindings of a loop: each initial value under the current node, with the names before it in
        scope, and its local in the region of the loop. */
    method ParseBindings(form: Form, env: map<string, LocalBinding>, ghost scope: set<LocalBinding>,
                         loopPath: PathNode, loopRoot: PathNode)
        returns (inits: seq<Expr>, locals: seq<LocalBinding>, env': map<string, LocalBinding>)
      requires form.Loop? && Valid() && Scoped(env, scope) && loopPath.kind.PATH?
      requires loopPath.stamp < clock && loopRoot.stamp < clock
      modifies this, made, env.Values
      ensures Valid() && clearPath == old(clearPath) && clearRoot == old(clearRoot) && clock >= old(clock)
      ensures made == old(made) + UsesOf(inits) && fresh(UsesOf(inits))
      ensures registered == old(registered) + BindersOf(inits) + Locals(locals)
      ensures old(registered) !! BindersOf(inits) + Locals(locals)
      ensures Initialized(inits, locals, form.bindings, env, scope, clearPath, clearRoot, old(clock), clock)
      ensures |inits| == |locals| == |form.bindings| && env' == Extended(env, NamesOf(form.bindings), locals, |locals|)
      ensures fresh(Locals(locals)) && forall b | b in Locals(locals) :: b.clearPathRoot == loopRoot
      ensures env'.Values <= env.Values + Locals(locals)
      decreases form, 0
    {
      hide Marked, Analyzed, Initialized, Extended, Uses, Binders, Sited, UsesOf, BindersOf, Locals, NamesOf;
      var path, root := clearPath, clearRoot;
      var i := 0;
      inits, locals, env' := [], [], env;
      NotInitialized(form.bindings, env, scope, path, root, clock);
      while i < |form.bindings|
        invariant i <= |form.bindings| && |inits| == |locals| == i
        invariant Valid() && clearPath == path && clearRoot == root && clock >= old(clock)
        invariant made == old(made) + UsesOf(inits) && fresh(UsesOf(inits))
        invariant registered == old(registered) + BindersOf(inits) + Locals(locals)
        invariant old(registered) !! BindersOf(inits) + Locals(locals)
        invariant Initialized(inits, locals, form.bindings, env, scope, path, root, old(clock), clock)
        invariant env' == Extended(env, NamesOf(form.bindings), locals, i)
        invariant fresh(Locals(locals)) && env'.Values <= env.Values + Locals(locals)
        invariant forall b | b in Locals(locals) :: b.clearPathRoot == loopRoot
      {
        ghost var now := clock;
        var init, local := ParseBinding(form.bindings[i].init, env', scope + Locals(locals), loopPath, loopRoot);
        InitializedNext(inits, locals, form.bindings, env, scope, path, root, old(clock), now, clock, init, local);
        inits, locals := inits + [init], locals + [local];
        env' := env'[form.bindings[i].name := local];
        i := i + 1;
      }
    }

    /** The loop branch of `parseLetExpr`: the locals and the body are in a region of the loop's own. */
    method ParseLoop(form: Form, env: map<string, LocalBinding>, ghost scope: set<LocalBinding>) returns (e: Expr)
      requires form.Loop? && Valid() && Scoped(env, scope)
      modifies this, made, env.Values
      ensures Valid() && Place() == old(Place()) && clock >= old(clock)
      ensures made == old(made) + Uses(e) && fresh(Uses(e))
      ensures registered == old(registered) + Binders(e) && old(registered) !! Binders(e)
      ensures Analyzed(e, form, env, scope, clearPath, clearRoot, old(clock), clock)
      decreases form, 1
    {
      hide Marked, Analyzed, Initialized, Extended, UsesOf, BindersOf, Sited;
      var path, root, locals0 := clearPath, clearRoot, nextLocal;
      ghost var start := clock;
      var loopRoot := NewPathNode(PATH, path);
      var loopClearRoot := NewPathNode(PATH, loopRoot);
      var loopClearPath := NewPathNode(PATH, loopRoot);
      ghost var lo := clock;
      var inits, locals, env' := ParseBindings(form, env, scope, loopClearPath, loopClearRoot);
      ghost var now := clock;
      var body := AnalyzeUnder(form.body, env', scope + Locals(locals), loopClearPath, loopClearRoot);
      nextLocal := locals0;
      e := LoopExpr(locals, inits, body);
      LoopAnalyzed(inits, body, locals, form, env, scope, path, loopRoot, loopClearPath, root, loopClearRoot,
                   start, lo, now, clock);
    }

    /** The names in scope stand for locals registered in older regions. */
    ghost predicate Scoped(env: map<string, LocalBinding>, scope: set<LocalBinding>)
      reads this
    {
      env.Values <= scope && forall b | b in scope :: b.clearPathRoot.stamp < clock
    }
  }

  lemma {:induction false} ExtendedPrefix(env: map<string, LocalBinding>, names: seq<string>, locals: seq<LocalBinding>,
                                          local: LocalBinding, n: nat)
    requires n <= |names| && n <= |locals|
    ensures Extended(env, names, locals + [local], n) == Extended(env, names, locals, n)
  {
    if n > 0 { ExtendedPrefix(env, names, locals, local, n - 1); }
  }

  /** The initial values analysed so far, each with the locals before it in scope. */
  ghost predicate Initialized(inits: seq<Expr>, locals: seq<LocalBinding>, bindings: seq<Binding>,
                              env: map<string, LocalBinding>,
                              scope: set<LocalBinding>, path: PathNode, root: PathNode, lo: nat, hi: nat) {
    && |inits| == |locals| <= |bindings| && InOrder(inits) && BoundApart(inits, locals)
    && forall k | 0 <= k < |inits| ::
         Analyzed(inits[k], bindings[k].init, Extended(env, NamesOf(bindings), locals, k), scope + Locals(locals[..k]),
           path, root, lo, hi)
  }

  /** No local is bound twice by the initial values and the loop. */
  ghost predicate BoundApart(inits: seq<Expr>, locals: seq<LocalBinding>) {
    && Apart(inits) && (forall k | 0 <= k < |inits| :: Binders(inits[k]) !! Locals(locals))
    && forall j, k | 0 <= j < k < |locals| :: locals[j] != locals[k]
  }

  lemma NotInitialized(bindings: seq<Binding>, env: map<string, LocalBinding>, scope: set<LocalBinding>,
                       path: PathNode, root: PathNode, lo: nat)
    ensures Initialized([], [], bindings, env, scope, path, root, lo, lo)
    ensures UsesOf([]) == {} && BindersOf([]) == {} && Locals([]) == {}
    ensures Extended(env, NamesOf(bindings), [], 0) == env
  {
  }

  lemma BoundApartNext(inits: seq<Expr>, locals: seq<LocalBinding>, init: Expr, local: LocalBinding)
    requires BoundApart(inits, locals) && BindersOf(inits) + Locals(locals) !! Binders(init)
    requires local !in BindersOf(inits) + Locals(locals) + Binders(init)
    ensures BoundApart(inits + [init], locals + [local])
    ensures BindersOf(inits + [init]) == BindersOf(inits) + Binders(init)
  {
    hide Binders, BindersOf;
    var inits', locals' := inits + [init], locals + [local];
    ApartNext(inits, init);
    assert Locals(locals') == Locals(locals) + {local};
    forall k | 0 <= k < |inits'| ensures Binders(inits'[k]) !! Locals(locals') {
      if k < |inits| { BindersPart(inits, k); }
    }
  }

  lemma InitializedNext(inits: seq<Expr>, locals: seq<LocalBinding>, bindings: seq<Binding>,
                        env: map<string, LocalBinding>,
                        scope: set<LocalBinding>, path: PathNode, root: PathNode, lo: nat, now: nat, hi: nat,
                        init: Expr, local: LocalBinding)
    requires Initialized(inits, locals, bindings, env, scope, path, root, lo, now) && |inits| < |bindings|
    requires path.kind.PATH? && lo <= now <= hi
    requires Analyzed(init, bindings[|inits|].init, Extended(env, NamesOf(bindings), locals, |inits|),
               scope + Locals(locals), path, root, now, hi)
    requires BindersOf(inits) + Locals(locals) !! Binders(init)
    requires local !in BindersOf(inits) + Locals(locals) + Binders(init)
    ensures Initialized(inits + [init], locals + [local], bindings, env, scope, path, root, lo, hi)
    ensures Extended(env, NamesOf(bindings), locals + [local], |inits| + 1)
            == Extended(env, NamesOf(bindings), locals, |inits|)[bindings[|inits|].name := local]
    ensures BindersOf(inits + [init]) == BindersOf(inits) + Binders(init)
    ensures UsesOf(inits + [init]) == UsesOf(inits) + Uses(init)
    ensures Locals(locals + [local]) == Locals(locals) + {local}
  {
    hide Before, Analyzed, Extended, BoundApart, Uses, Binders;
    var n, inits', locals', names := |inits|, inits + [init], locals + [local], NamesOf(bindings);
    BoundApartNext(inits, locals, init, local);
    AnalyzedWider(init, bindings[n].init, Extended(env, names, locals, n), scope + Locals(locals), path, root, now, hi,
      lo, hi);
    forall k | 0 <= k < n ensures Before(inits'[k], init) {
      AnalyzedBefore(inits[k], init, bindings[k].init, bindings[n].init, Extended(env, names, locals, k),
        Extended(env, names, locals, n), scope + Locals(locals[..k]), scope + Locals(locals), path, root, lo, now, hi);
    }
    forall k | 0 <= k <= n
      ensures Analyzed(inits'[k], bindings[k].init, Extended(env, names, locals', k), scope + Locals(locals'[..k]),
                path, root, lo, hi)
    {
      assert locals'[..k] == locals[..k];
      ExtendedPrefix(env, names, locals, local, k);
      if k < n {
        AnalyzedWider(inits[k], bindings[k].init, Extended(env, names, locals, k), scope + Locals(locals[..k]), path,
          root, lo, now, lo, hi);
      } else {
        assert locals[..n] == locals;
      }
    }
    ExtendedNext(env, names, locals, local);
    assert inits'[..n] == inits;
  }

  lemma AnalyzedWider(e: Expr, form: Form, env: map<string, LocalBinding>, scope: set<LocalBinding>, path: PathNode,
                      root: PathNode, lo: nat, hi: nat, lo': nat, hi': nat)
    requires Analyzed(e, form, env, scope, path, root, lo, hi) && lo' <= lo && hi <= hi'
    ensures Analyzed(e, form, env, scope, path, root, lo', hi')
  {
    hide AllPlaced, Arranged, Represents, Separate, Regional;
    PlacedWider(Uses(e), path, root, lo, hi, lo', hi');
  }

  lemma AnalyzedBefore(e: Expr, f: Expr, form: Form, form': Form, env: map<string, LocalBinding>,
                       env': map<string, LocalBinding>, scope: set<LocalBinding>, scope': set<LocalBinding>,
                       path: PathNode, root: PathNode, lo: nat, now: nat, hi: nat)
    requires Analyzed(e, form, env, scope, path, root, lo, now) && Analyzed(f, form', env', scope', path, root, now, hi)
    requires path.kind.PATH?
    ensures Before(e, f)
  {
    hide AllPlaced, Arranged, Represents, Separate, Regional, Before;
    PlacedBefore(e, f, path, path, root, root, lo, now, now, hi);
  }

  lemma NothingAnalyzed(forms: seq<Form>, env: map<string, LocalBinding>, scope: set<LocalBinding>, path: PathNode,
                        root: PathNode, lo: nat)
    ensures AllAnalyzed([], forms, env, scope, path, root, lo, lo) && UsesOf([]) == {} && BindersOf([]) == {}
  {
  }

  lemma AnalyzedNext(es: seq<Expr>, next: Expr, forms: seq<Form>, env: map<string, LocalBinding>,
                     scope: set<LocalBinding>, path: PathNode, root: PathNode, lo: nat, now: nat, hi: nat)
    requires AllAnalyzed(es, forms, env, scope, path, root, lo, now) && |es| < |forms| && lo <= now <= hi
    requires Analyzed(next, forms[|es|], env, scope, path, root, now, hi) && path.kind.PATH?
    requires BindersOf(es) !! Binders(next)
    ensures AllAnalyzed(es + [next], forms, env, scope, path, root, lo, hi)
    ensures UsesOf(es + [next]) == UsesOf(es) + Uses(next)
    ensures BindersOf(es + [next]) == BindersOf(es) + Binders(next)
  {
    hide Before, Analyzed, Apart, Uses, Binders;
    var n, es' := |es|, es + [next];
    ApartNext(es, next);
    AnalyzedWider(next, forms[n], env, scope, path, root, now, hi, lo, hi);
    forall k | 0 <= k < n ensures Before(es'[k], next) && Analyzed(es'[k], forms[k], env, scope, path, root, lo, hi) {
      AnalyzedBefore(es[k], next, forms[k], forms[n], env, env, scope, scope, path, root, lo, now, hi);
      AnalyzedWider(es[k], forms[k], env, scope, path, root, lo, now, lo, hi);
    }
    assert es'[..n] == es;
  }

  lemma BodyAnalyzed(es: seq<Expr>, forms: seq<Form>, env: map<string, LocalBinding>, scope: set<LocalBinding>,
                     path: PathNode, root: PathNode, lo: nat, hi: nat)
    requires AllAnalyzed(es, forms, env, scope, path, root, lo, hi) && |es| == |forms|
    ensures Analyzed(Body(es), Do(forms), env, scope, path, root, lo, hi)
    ensures Uses(Body(es)) == UsesOf(es) && Binders(Body(es)) == BindersOf(es)
  {
    hide AllPlaced, InOrder, Apart, Regional, UsesOf;
    AllPlacedOf(es, path, root, lo, hi);
    RegionalBody(es, Own(scope, root));
  }

  lemma ExtendedNext(env: map<string, LocalBinding>, names: seq<string>, locals: seq<LocalBinding>, local: LocalBinding)
    requires |locals| < |names|
    ensures Extended(env, names, locals + [local], |locals| + 1)
            == Extended(env, names, locals, |locals|)[names[|locals|] := local]
  {
    ExtendedPrefix(env, names, locals, local, |locals|);
  }

  lemma PlacedWider(uses: set<LocalBindingExpr>, path: PathNode, root: PathNode, lo: nat, hi: nat, lo': nat, hi': nat)
    requires AllPlaced(uses, path, root, lo, hi) && lo' <= lo && hi <= hi'
    ensures AllPlaced(uses, path, root, lo', hi')
  {
    forall u | u in uses ensures Placed(u, path, root, lo', hi') { assert Placed(u, path, root, lo, hi); }
  }

  /** Uses below a node that itself hangs below `path`, in the same region or one of that time. */
  lemma PlacedDeeper(uses: set<LocalBindingExpr>, path: PathNode, below: PathNode, root: PathNode, root': PathNode,
                     start: nat, lo: nat, hi: nat)
    requires AllPlaced(uses, below, root', lo, hi) && start <= lo && OnPath(path, Some(below))
    requires forall a: PathNode | OnPath(a, Some(below)) :: OnPath(a, Some(path)) || start <= a.stamp < lo
    requires root' == root || root'.stamp >= start
    ensures AllPlaced(uses, path, root, start, hi)
  {
    forall u | u in uses ensures Placed(u, path, root, start, hi) {
      assert Placed(u, below, root', lo, hi);
      OnPathTransitive(path, below, Some(u.clearPath));
    }
  }

  lemma PlacedJoin(a: set<LocalBindingExpr>, b: set<LocalBindingExpr>, c: set<LocalBindingExpr>, path: PathNode,
                   root: PathNode,
                   lo: nat, hi: nat)
    requires AllPlaced(a, path, root, lo, hi) && AllPlaced(b, path, root, lo, hi)
    requires c == {} || AllPlaced(c, path, root, lo, hi)
    ensures AllPlaced(a + b + c, path, root, lo, hi) && AllPlaced(a + b, path, root, lo, hi)
  {
  }

  /** A node made below a new child of `path`: what is above it is above `path` or as new. */
  lemma GrandchildPath(path: PathNode, mid: PathNode, below: PathNode, start: nat, lo: nat)
    requires mid.parent == Some(path) && below.parent == Some(mid)
    requires start <= mid.stamp < lo && start <= below.stamp < lo
    ensures OnPath(path, Some(below))
    ensures forall a: PathNode | OnPath(a, Some(below)) :: OnPath(a, Some(path)) || a == mid || a == below
    ensures forall a: PathNode | OnPath(a, Some(below)) :: OnPath(a, Some(path)) || start <= a.stamp < lo
  {
  }

  /** What the analysis of an arm adds to that of the test. */
  lemma ArmPlaced(test: Expr, arm: Expr, path: PathNode, branch: PathNode, below: PathNode, root: PathNode,
                  start: nat, lo: nat, hi: nat, now: nat, end: nat)
    requires path.kind.PATH? && branch.parent == Some(path) && below.parent == Some(branch)
    requires start == branch.stamp < lo <= hi <= below.stamp < now <= end
    requires AllPlaced(Uses(test), path, root, lo, hi) && AllPlaced(Uses(arm), below, root, now, end)
    ensures Before(test, arm) && AllPlaced(Uses(arm), path, root, start, end)
  {
    GrandchildPath(path, branch, below, start, now);
    PlacedBefore(test, arm, path, below, root, root, lo, hi, now, end);
    PlacedDeeper(Uses(arm), path, below, root, root, start, now, end);
  }

  /** Uses below different arms of one branch never both run: their deepest common node is the branch. */
  lemma ArmsExclude(e: Expr, f: Expr, branch: PathNode, yes: PathNode, no: PathNode, root: PathNode, root': PathNode,
                    lo: nat, hi: nat, lo': nat, hi': nat)
    requires branch.kind.BRANCH? && yes.parent == no.parent == Some(branch)
    requires yes.stamp < lo <= hi <= no.stamp < lo' <= hi'
    requires AllPlaced(Uses(e), yes, root, lo, hi) && AllPlaced(Uses(f), no, root', lo', hi')
    ensures Exclusive(e, f)
  {
    hide OnPath, DeepestCommon;
    forall u, v | u in Uses(e) && v in Uses(f) ensures !MayBothRun(u.clearPath, v.clearPath) {
      assert Placed(u, yes, root, lo, hi) && Placed(v, no, root', lo', hi');
      BranchIsDeepest(branch, yes, no, u.clearPath, v.clearPath, lo, hi, lo', hi');
      forall c: PathNode | DeepestCommon(c, Some(u.clearPath), Some(v.clearPath)) ensures c == branch {
        DeepestUnique(c, branch, Some(u.clearPath), Some(v.clearPath));
      }
    }
  }

  lemma BranchIsDeepest(branch: PathNode, yes: PathNode, no: PathNode, p: PathNode, q: PathNode,
                        lo: nat, hi: nat, lo': nat, hi': nat)
    requires yes.parent == no.parent == Some(branch) && yes.stamp < lo <= hi <= no.stamp < lo' <= hi'
    requires Within(yes, p, lo, hi) && Within(no, q, lo', hi')
    ensures DeepestCommon(branch, Some(p), Some(q))
  {
    ParentAbove(branch, yes, p);
    ParentAbove(branch, no, q);
    forall a: PathNode | OnPath(a, Some(p)) && OnPath(a, Some(q)) ensures OnPath(a, Some(branch)) {
      ChildPath(a, branch, yes);
      ChildPath(a, branch, no);
    }
  }

  lemma ParentAbove(branch: PathNode, arm: PathNode, p: PathNode)
    requires arm.parent == Some(branch) && OnPath(arm, Some(p))
    ensures OnPath(branch, Some(p))
  {
    assert OnPath(branch, Some(branch));
    OnPathTransitive(branch, arm, Some(p));
  }

  lemma ChildPath(a: PathNode, branch: PathNode, arm: PathNode)
    requires arm.parent == Some(branch)
    ensures OnPath(a, Some(arm)) <==> a == arm || OnPath(a, Some(branch))
  {
  }

  /** An `if` whose parts have been analysed. */
  lemma IfAnalyzed(test: Expr, yesExpr: Expr, noExpr: Expr, form: Form, env: map<string, LocalBinding>,
                   scope: set<LocalBinding>, path: PathNode, branch: PathNode, yes: PathNode, no: PathNode,
                   root: PathNode, start: nat, lo: nat, hi: nat, lo': nat, hi': nat, lo'': nat, hi'': nat)
    requires form.If? && path.kind.PATH? && branch.kind.BRANCH? && branch.parent == Some(path)
    requires yes.parent == no.parent == Some(branch)
    requires start == branch.stamp < lo <= hi <= yes.stamp < lo' <= hi' <= no.stamp < lo'' <= hi''
    requires Analyzed(test, form.test, env, scope, path, root, lo, hi)
    requires Analyzed(yesExpr, form.yes, env, scope, yes, root, lo', hi')
    requires Analyzed(noExpr, form.no, env, scope, no, root, lo'', hi'')
    requires Binders(test) !! Binders(yesExpr) && Binders(test) !! Binders(noExpr)
    ensures Analyzed(IfExpr(test, yesExpr, noExpr), form, env, scope, path, root, start, hi'')
  {
    hide AllPlaced, Before, Exclusive, Regional, Own, OnPath;
    IfPlaced(test, yesExpr, noExpr, path, branch, yes, no, root, start, lo, hi, lo', hi', lo'', hi'');
    RegionalIf(test, yesExpr, noExpr, Own(scope, root));
  }

  lemma IfPlaced(test: Expr, yesExpr: Expr, noExpr: Expr, path: PathNode, branch: PathNode, yes: PathNode,
                 no: PathNode, root: PathNode, start: nat, lo: nat, hi: nat, lo': nat, hi': nat, lo'': nat, hi'': nat)
    requires path.kind.PATH? && branch.kind.BRANCH? && branch.parent == Some(path)
    requires yes.parent == no.parent == Some(branch)
    requires start == branch.stamp < lo <= hi <= yes.stamp < lo' <= hi' <= no.stamp < lo'' <= hi''
    requires AllPlaced(Uses(test), path, root, lo, hi)
    requires AllPlaced(Uses(yesExpr), yes, root, lo', hi') && AllPlaced(Uses(noExpr), no, root, lo'', hi'')
    ensures Before(test, yesExpr) && Before(test, noExpr) && Exclusive(yesExpr, noExpr)
    ensures AllPlaced(Uses(IfExpr(test, yesExpr, noExpr)), path, root, start, hi'')
  {
    hide AllPlaced, Before, Exclusive, OnPath;
    ArmPlaced(test, yesExpr, path, branch, yes, root, start, lo, hi, lo', hi');
    ArmPlaced(test, noExpr, path, branch, no, root, start, lo, hi, lo'', hi'');
    ArmsExclude(yesExpr, noExpr, branch, yes, no, root, root, lo', hi', lo'', hi'');
    PlacedWider(Uses(test), path, root, lo, hi, start, hi'');
    PlacedWider(Uses(yesExpr), path, root, start, hi', start, hi'');
    PlacedJoin(Uses(test), Uses(yesExpr), Uses(noExpr), path, root, start, hi'');
  }

  /** A loop whose parts have been analysed. */
  lemma LoopAnalyzed(inits: seq<Expr>, body: Expr, locals: seq<LocalBinding>, form: Form,
                     env: map<string, LocalBinding>, scope: set<LocalBinding>, path: PathNode, loopRoot: PathNode,
                     below: PathNode, root: PathNode, root': PathNode, start: nat, lo: nat, now: nat, end: nat)
    requires form.Loop? && path.kind.PATH? && loopRoot.parent == Some(path) && below.parent == Some(loopRoot)
    requires start <= loopRoot.stamp < lo && start <= below.stamp < lo <= now <= end
    requires root.stamp < start <= root'.stamp
    requires Initialized(inits, locals, form.bindings, env, scope, path, root, lo, now) &&
               |inits| == |form.bindings|
    requires Analyzed(body, form.body, Extended(env, NamesOf(form.bindings), locals, |form.bindings|),
               scope + Locals(locals), below, root', now, end)
    requires BindersOf(inits) + Locals(locals) !! Binders(body)
    requires forall b | b in scope :: b.clearPathRoot.stamp < start
    requires forall b | b in Locals(locals) :: b.clearPathRoot == root'
    ensures Analyzed(LoopExpr(locals, inits, body), form, env, scope, path, root, start, end)
  {
    hide Before, AllPlaced, OnPath, Extended, Regional, Own, BoundApart, Separate, Binders;
    LoopPlaced(inits, body, locals, form, env, scope, path, loopRoot, below, root, root', start, lo, now, end);
    LoopSeparate(inits, body, locals, form.bindings, env, scope, path, root, lo, now);
    LoopRegional(inits, body, locals, form.bindings, env, scope, path, root, root', start, lo, now);
  }

  lemma LoopSeparate(inits: seq<Expr>, body: Expr, locals: seq<LocalBinding>, bindings: seq<Binding>,
                     env: map<string, LocalBinding>, scope: set<LocalBinding>, path: PathNode, root: PathNode, lo: nat,
                     hi: nat)
    requires Initialized(inits, locals, bindings, env, scope, path, root, lo, hi)
    requires Separate(body) && BindersOf(inits) + Locals(locals) !! Binders(body)
    ensures Separate(LoopExpr(locals, inits, body))
  {
    hide AllPlaced, Regional, Arranged, Represents, Extended, Binders;
    forall k | 0 <= k < |inits| ensures Separate(inits[k]) && Binders(inits[k]) !! Binders(body) {
      assert Analyzed(inits[k], bindings[k].init, Extended(env, NamesOf(bindings), locals, k),
        scope + Locals(locals[..k]), path, root, lo, hi);
      BindersPart(inits, k);
    }
  }

  /** The loop's locals are owned in its body, and nothing else is. */
  lemma LoopRegional(inits: seq<Expr>, body: Expr, locals: seq<LocalBinding>, bindings: seq<Binding>,
                     env: map<string, LocalBinding>, scope: set<LocalBinding>, path: PathNode, root: PathNode,
                     root': PathNode, start: nat, lo: nat, hi: nat)
    requires Initialized(inits, locals, bindings, env, scope, path, root, lo, hi) && root.stamp < start <= root'.stamp
    requires Regional(body, Own(scope + Locals(locals), root'))
    requires forall b | b in scope :: b.clearPathRoot.stamp < start
    requires forall b | b in Locals(locals) :: b.clearPathRoot == root'
    ensures Regional(LoopExpr(locals, inits, body), Own(scope, root))
  {
    hide AllPlaced, Regional, Arranged, Represents, Extended, BoundApart, Separate, InOrder;
    assert Own(scope + Locals(locals), root') == Locals(locals);
    forall k | 0 <= k < |inits| ensures Regional(inits[k], Own(scope, root)) {
      assert Analyzed(inits[k], bindings[k].init, Extended(env, NamesOf(bindings), locals, k),
        scope + Locals(locals[..k]), path, root, lo, hi);
      assert Own(scope + Locals(locals[..k]), root) == Own(scope, root);
    }
    RegionalLoop(locals, inits, body, Own(scope, root));
  }

  lemma LoopPlaced(inits: seq<Expr>, body: Expr, locals: seq<LocalBinding>, form: Form,
                   env: map<string, LocalBinding>, scope: set<LocalBinding>, path: PathNode, loopRoot: PathNode,
                   below: PathNode, root: PathNode, root': PathNode, start: nat, lo: nat, now: nat, end: nat)
    requires form.Loop? && path.kind.PATH? && loopRoot.parent == Some(path) && below.parent == Some(loopRoot)
    requires start <= loopRoot.stamp < lo && start <= below.stamp < lo <= now <= end && start <= root'.stamp
    requires Initialized(inits, locals, form.bindings, env, scope, path, root, lo, now) &&
               |inits| == |form.bindings|
    requires Arranged(body, scope + Locals(locals)) && AllPlaced(Uses(body), below, root', now, end)
    requires Represents(body, form.body, Extended(env, NamesOf(form.bindings), locals, |form.bindings|))
    requires forall b | b in scope :: b.clearPathRoot.stamp < start
    ensures Arranged(LoopExpr(locals, inits, body), scope)
    ensures Represents(LoopExpr(locals, inits, body), form, env)
    ensures AllPlaced(Uses(LoopExpr(locals, inits, body)), path, root, start, end)
  {
    hide Before, AllPlaced, OnPath, Extended, Regional, BoundApart, Separate;
    GrandchildPath(path, loopRoot, below, start, lo);
    NotOwned(Uses(body), scope, below, root', start, now, end);
    PlacedDeeper(Uses(body), path, below, root, root', start, now, end);
    forall k | 0 <= k < |inits| ensures Before(inits[k], body) && AllPlaced(Uses(inits[k]), path, root, start, end) {
      assert Analyzed(inits[k], form.bindings[k].init, Extended(env, NamesOf(form.bindings), locals, k),
        scope + Locals(locals[..k]), path, root, lo, now);
      PlacedBefore(inits[k], body, path, below, root, root', lo, now, now, end);
      PlacedWider(Uses(inits[k]), path, root, lo, now, start, end);
    }
    AllPlacedOf(inits, path, root, start, end);
    PlacedJoin(UsesOf(inits), Uses(body), {}, path, root, start, end);
  }

  /** Uses in newer regions own no local registered in an older one. */
  lemma NotOwned(uses: set<LocalBindingExpr>, scope: set<LocalBinding>, path: PathNode, root: PathNode, start: nat,
                 lo: nat, hi: nat)
    requires AllPlaced(uses, path, root, lo, hi) && start <= root.stamp && start <= lo
    requires forall b | b in scope :: b.clearPathRoot.stamp < start
    ensures forall u | u in uses && u.b in scope :: !u.Owned()
  {
    forall u | u in uses && u.b in scope ensures !u.Owned() { assert Placed(u, path, root, lo, hi); }
  }

  /** The deepest common node decides whether two nodes may both run. */
  lemma Meeting(p: PathNode, q: PathNode, common: Option<PathNode>)
    requires common.Some? ==> DeepestCommon(common.value, Some(q), Some(p))
    requires common.None? ==> forall a: PathNode :: !(OnPath(a, Some(q)) && OnPath(a, Some(p)))
    ensures MayBothRun(p, q) <==> common.Some? && common.value.kind.PATH?
  {
    if common.Some? {
      assert DeepestCommon(common.value, Some(p), Some(q));
      forall c: PathNode | DeepestCommon(c, Some(p), Some(q)) ensures c == common.value {
        DeepestUnique(c, common.value, Some(p), Some(q));
      }
    }
  }

  /** The locals of a method: itself and its parameters. */
  ghost function MethodLocals(self: Option<LocalBinding>, locals: seq<LocalBinding>): set<LocalBinding> {
    Locals(locals) + if self.Some? then {self.value} else {}
  }

  /** `parseFnMethod` as far as locals go: local 0 is the function itself, then come the parameters. A use
      clears its local exactly if the local is owned where the use stands and no run of the method reads it
      by that use and then again before it is bound anew. What keeps an owned use from clearing is a run to
      the end. */
  method ParseFnMethod(thisName: Option<string>, params: seq<string>, body: Form)
      returns (e: Expr, a: Analyzer, self: Option<LocalBinding>, locals: seq<LocalBinding>)
    ensures (self.Some? <==> thisName.Some?) && (self.Some? ==> self.value.index == 0)
    ensures |locals| == |params| && forall i | 0 <= i < |locals| :: locals[i].index == i + 1
    ensures Represents(e, body, Extended(if thisName.Some? then map[thisName.value := self.value]
              else map[], params, locals, |params|))
    ensures a.made == Uses(e) && Marked(Uses(e))
    ensures forall u | u in Uses(e) :: u.shouldClear <==> u in Region(e, MethodLocals(self, locals)) && IsLast(e, u)
    ensures forall u | u in Region(e, MethodLocals(self, locals)) && !u.shouldClear :: IsFollowed(e, u)
    ensures forall run: Run, i, j | Again(Trace(e, run), i, j) :: !Trace(e, run)[i].u.shouldClear
  {
    hide Marked, Analyzed, Locals, Analyzer.Sited, IsLast, IsFollowed, Uses, Region, Binders, Extended, MethodLocals,
      Represents;
    a := new Analyzer();
    var env: map<string, LocalBinding> := map[];
    self := None;
    if thisName.Some? {
      var b := a.RegisterLocal();
      self, env := Some(b), map[thisName.value := b];
    } else {
      a.nextLocal := a.nextLocal + 1;
    }
    ghost var env0, root := env, a.clearRoot;
    locals := [];
    NoLocals(self, env, params);
    var i := 0;
    while i < |params|
      invariant i <= |params| && a.Valid() && a.clearRoot == root && a.made == {} && fresh(env.Values)
      invariant a.registered == MethodLocals(self, locals) && env.Values <= a.registered
      invariant forall b | b in a.registered :: b.clearPathRoot == root
      invariant a.nextLocal == i + 1 && |locals| == i && forall k | 0 <= k < i :: locals[k].index == k + 1
      invariant env == Extended(env0, params, locals, i)
      modifies a`nextLocal, a`registered
    {
      var b := a.RegisterLocal();
      ghost var before := env;
      ExtendedNext(env0, params, locals, b);
      MoreLocals(self, locals, b);
      locals := locals + [b];
      env := env[params[i] := b];
      assert forall v | v in env.Values :: v in before.Values || v == b;
      i := i + 1;
    }
    ghost var scope, start := a.registered, a.clock;
    e := a.AnalyzeForm(body, env, scope);
    assert a.made == Uses(e);
    MethodAnalyzed(e, body, env, scope, a.clearPath, root, start, a.clock);
    AnalysisHolds(e, body, env, scope, a.clearPath, root, start, a.clock);
  }

  lemma NoLocals(self: Option<LocalBinding>, env: map<string, LocalBinding>, names: seq<string>)
    ensures MethodLocals(self, []) == (if self.Some? then {self.value} else {}) && Extended(env, names, [], 0) == env
  {
  }

  lemma MoreLocals(self: Option<LocalBinding>, locals: seq<LocalBinding>, b: LocalBinding)
    ensures MethodLocals(self, locals + [b]) == MethodLocals(self, locals) + {b}
  {
  }

  lemma AnalysisHolds(e: Expr, form: Form, env: map<string, LocalBinding>, scope: set<LocalBinding>, path: PathNode,
                      root: PathNode, lo: nat, hi: nat)
    requires Analyzed(e, form, env, scope, path, root, lo, hi)
    ensures Represents(e, form, env)
  {
  }

  lemma MethodAnalyzed(e: Expr, form: Form, env: map<string, LocalBinding>, scope: set<LocalBinding>, path: PathNode,
                       root: PathNode, lo: nat, hi: nat)
    requires Analyzed(e, form, env, scope, path, root, lo, hi) && Marked(Uses(e)) && Binders(e) !! scope
    requires forall b | b in scope :: b.clearPathRoot == root
    ensures forall u | u in Uses(e) :: u.shouldClear <==> u in Region(e, scope) && IsLast(e, u)
    ensures forall u | u in Region(e, scope) && !u.shouldClear :: IsFollowed(e, u)
    ensures forall run: Run, i, j | Again(Trace(e, run), i, j) :: !Trace(e, run)[i].u.shouldClear
  {
    hide Arranged, Represents, Separate, AllPlaced, Marked, Uses, Region, IsLast, IsFollowed, LocalBindingExpr.Owned;
    forall run: Run, i, j | Again(Trace(e, run), i, j) ensures !Trace(e, run)[i].u.shouldClear {
      ClearsSafely(e, run, scope, Uses(e));
    }
    assert Own(scope, root) == scope;
    forall u | u in Uses(e)
      ensures u.shouldClear <==> u in Region(e, scope) && IsLast(e, u)
      ensures u in Region(e, scope) && !u.shouldClear ==> IsFollowed(e, u)
    {
      ClearsExactly(e, scope, u);
    }
  }
}
