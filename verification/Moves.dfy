// Use-after-move: the checker's walk over a function body, and an execution
// semantics with shadowing in which moves are tracked per binding. A body the
// walk accepts never reads a moved binding, whichever branches are taken.
module Moves {
  datatype Option<+T> = None | Some(value: T)

  // `copy`: the path's type is Copy. Unwalked: any expression form that the
  // walk does not enter, with the names it reads.
  datatype Expr =
    | Path(name: string, copy: bool)
    | Binary(lhs: Expr, rhs: Expr)
    | Unary(operand: Expr)
    | Call(callee: Expr, args: seq<Expr>)
    | BlockExpr(block: Block)
    | If(cond: Expr, yes: Block, els: Option<Expr>)
    | Unwalked(names: seq<string>)

  // A let without a plain name binds nothing here.
  datatype Stmt =
    | Let(name: Option<string>, init: Option<Expr>)
    | Var(x: string, value: Expr)
    | Return(result: Option<Expr>)
    | ExprStmt(expr: Expr)

  datatype Block = Block(stmts: seq<Stmt>, trailing: Option<Expr>)

  /******* The walk *******/

  datatype Walker = Walker(live: set<string>, moved: set<string>, diags: nat)

  function Use(w: Walker, x: string): Walker {
    if x in w.moved then w.(diags := w.diags + 1) else w
  }

  // A let or var whose value is a bare path of a type that is not Copy.
  function Take(w: Walker, value: Expr): Walker {
    if value.Path? && value.name in w.live && !value.copy
    then w.(live := w.live - {value.name}, moved := w.moved + {value.name})
    else w
  }

  function WalkExpr(w: Walker, e: Expr): Walker
    decreases e, 1, 0
  {
    match e
    case Path(x, _) => Use(w, x)
    case Binary(l, r) => WalkExpr(WalkExpr(w, l), r)
    case Unary(x) => WalkExpr(w, x)
    case Call(f, args) => WalkArgs(WalkExpr(w, f), e, 0)
    case BlockExpr(b) => WalkBlock(w, b, 0)
    case If(c, yes, els) =>
      var w2 := WalkBlock(WalkExpr(w, c), yes, 0);
      if els.Some? then WalkExpr(w2, els.value) else w2
    case Unwalked(_) => w
  }

  function WalkArgs(w: Walker, e: Expr, i: nat): Walker
    requires e.Call? && i <= |e.args|
    decreases e, 0, |e.args| - i
  {
    if i == |e.args| then w else WalkArgs(WalkExpr(w, e.args[i]), e, i + 1)
  }

  function WalkStmt(w: Walker, s: Stmt): Walker
    decreases s, 1, 0
  {
    match s
    case Let(x, init) =>
      if init.None? then w
      else
        var w2 := Take(WalkExpr(w, init.value), init.value);
        if x.Some? then w2.(live := w2.live + {x.value}) else w2
    case Var(x, value) =>
      var w2 := Take(WalkExpr(w, value), value);
      w2.(live := w2.live + {x})
    case Return(r) => if r.Some? then WalkExpr(w, r.value) else w
    case ExprStmt(x) => WalkExpr(w, x)
  }

  // The statements from the i-th on, then the trailing expression.
  function WalkBlock(w: Walker, b: Block, i: nat): Walker
    requires i <= |b.stmts|
    decreases b, 1, |b.stmts| - i
  {
    if i == |b.stmts| then (if b.trailing.Some? then WalkExpr(w, b.trailing.value) else w)
    else WalkBlock(WalkStmt(w, b.stmts[i]), b, i + 1)
  }

  function Begin(params: seq<string>): Walker {
    Walker(set i | 0 <= i < |params| :: params[i], {}, 0)
  }

  function WalkFn(params: seq<string>, body: Block): Walker {
    WalkBlock(Begin(params), body, 0)
  }

  /******* Execution *******/

  // Bindings are numbered in the order they are made; names[i] is the name of
  // binding i. `branch` decides the conditions, `ifs` counts them. `bad` tells
  // that a moved binding was read.
  datatype State = State(
    names: seq<string>, scope: map<string, nat>, gone: set<nat>, bad: bool, returned: bool, ifs: nat)

  function Declare(s: State, x: string): State {
    s.(names := s.names + [x], scope := s.scope[x := |s.names|])
  }

  function Read(s: State, x: string): State {
    if x in s.scope && s.scope[x] in s.gone then s.(bad := true) else s
  }

  function ReadAll(s: State, xs: seq<string>): State
    decreases xs
  {
    if xs == [] then s else ReadAll(Read(s, xs[0]), xs[1..])
  }

  function MoveOut(s: State, value: Expr): State {
    if value.Path? && !value.copy && value.name in s.scope then s.(gone := s.gone + {s.scope[value.name]}) else s
  }

  function Exec(branch: nat -> bool, s: State, e: Expr): State
    decreases e, 1, 0
  {
    if s.returned then s
    else
      match e
      case Path(x, _) => Read(s, x)
      case Binary(l, r) => Exec(branch, Exec(branch, s, l), r)
      case Unary(x) => Exec(branch, s, x)
      case Call(f, args) => ExecArgs(branch, Exec(branch, s, f), e, 0)
      case BlockExpr(b) => ExecScoped(branch, s, b)
      case If(c, yes, els) =>
        var t := Exec(branch, s, c);
        var u := t.(ifs := t.ifs + 1);
        if branch(t.ifs) then ExecScoped(branch, u, yes)
        else if els.Some? then Exec(branch, u, els.value)
        else u
      case Unwalked(xs) => ReadAll(s, xs)
  }

  function ExecArgs(branch: nat -> bool, s: State, e: Expr, i: nat): State
    requires e.Call? && i <= |e.args|
    decreases e, 0, |e.args| - i
  {
    if i == |e.args| then s else ExecArgs(branch, Exec(branch, s, e.args[i]), e, i + 1)
  }

  function ExecStmt(branch: nat -> bool, s: State, st: Stmt): State
    decreases st, 1, 0
  {
    if s.returned then s
    else
      match st
      case Let(x, init) =>
        if init.None? then (if x.Some? then Declare(s, x.value) else s)
        else
          var t := Exec(branch, s, init.value);
          if t.returned then t
          else
            var u := MoveOut(t, init.value);
            if x.Some? then Declare(u, x.value) else u
      case Var(x, value) =>
        var t := Exec(branch, s, value);
        if t.returned then t else Declare(MoveOut(t, value), x)
      case Return(r) =>
        var t := if r.Some? then Exec(branch, s, r.value) else s;
        t.(returned := true)
      case ExprStmt(x) => Exec(branch, s, x)
  }

  function ExecBlock(branch: nat -> bool, s: State, b: Block, i: nat): State
    requires i <= |b.stmts|
    decreases b, 1, |b.stmts| - i
  {
    if i == |b.stmts| then (if b.trailing.Some? then Exec(branch, s, b.trailing.value) else s)
    else ExecBlock(branch, ExecStmt(branch, s, b.stmts[i]), b, i + 1)
  }

  // Bindings made in a block go out of scope at its end.
  function ExecScoped(branch: nat -> bool, s: State, b: Block): State
    decreases b, 2, 0
  {
    ExecBlock(branch, s, b, 0).(scope := s.scope)
  }

  function ScopeOf(params: seq<string>): map<string, nat> {
    if params == [] then map[] else ScopeOf(params[..|params| - 1])[params[|params| - 1] := |params| - 1]
  }

  function Start(params: seq<string>): State {
    State(params, ScopeOf(params), {}, false, false, 0)
  }

  function ExecFn(branch: nat -> bool, params: seq<string>, body: Block): State {
    ExecBlock(branch, Start(params), body, 0)
  }

  /******* What the walk can see *******/

  predicate MovesName(value: Expr) {
    value.Path? && !value.copy
  }

  function Source(value: Expr): set<string> {
    if MovesName(value) then {value.name} else {}
  }

  // The names that some let or var moves.
  function Sources(e: Expr): set<string>
    decreases e
  {
    match e
    case Path(_, _) => {}
    case Binary(l, r) => Sources(l) + Sources(r)
    case Unary(x) => Sources(x)
    case Call(f, args) => Sources(f) + set i, x | 0 <= i < |args| && x in Sources(args[i]) :: x
    case BlockExpr(b) => BlockSources(b)
    case If(c, yes, els) => Sources(c) + BlockSources(yes) + if els.Some? then Sources(els.value) else {}
    case Unwalked(_) => {}
  }

  function StmtSources(s: Stmt): set<string>
    decreases s
  {
    match s
    case Let(_, init) => if init.Some? then Sources(init.value) + Source(init.value) else {}
    case Var(_, value) => Sources(value) + Source(value)
    case Return(r) => if r.Some? then Sources(r.value) else {}
    case ExprStmt(x) => Sources(x)
  }

  function BlockSources(b: Block): set<string>
    decreases b
  {
    (set i, x | 0 <= i < |b.stmts| && x in StmtSources(b.stmts[i]) :: x)
    + if b.trailing.Some? then Sources(b.trailing.value) else {}
  }

  // The names of which the walk misses a read or a declaration: those read in
  // a form it does not enter, and those declared without an initialiser.
  function Missed(e: Expr): set<string>
    decreases e
  {
    match e
    case Path(_, _) => {}
    case Binary(l, r) => Missed(l) + Missed(r)
    case Unary(x) => Missed(x)
    case Call(f, args) => Missed(f) + set i, x | 0 <= i < |args| && x in Missed(args[i]) :: x
    case BlockExpr(b) => BlockMissed(b)
    case If(c, yes, els) => Missed(c) + BlockMissed(yes) + if els.Some? then Missed(els.value) else {}
    case Unwalked(xs) => set x | x in xs
  }

  function StmtMissed(s: Stmt): set<string>
    decreases s
  {
    match s
    case Let(x, init) =>
      if init.Some? then Missed(init.value) else if x.Some? then {x.value} else {}
    case Var(_, value) => Missed(value)
    case Return(r) => if r.Some? then Missed(r.value) else {}
    case ExprStmt(x) => Missed(x)
  }

  function BlockMissed(b: Block): set<string>
    decreases b
  {
    (set i, x | 0 <= i < |b.stmts| && x in StmtMissed(b.stmts[i]) :: x)
    + if b.trailing.Some? then Missed(b.trailing.value) else {}
  }

  // The walk misses nothing about a name that is moved.
  predicate SeesMoves(body: Block) {
    BlockSources(body) !! BlockMissed(body)
  }

  // The same for a part of a body in which the names m are moved.
  predicate Seen(m: set<string>, e: Expr) {
    Sources(e) <= m && Missed(e) !! m
  }

  predicate SeenStmt(m: set<string>, s: Stmt) {
    StmtSources(s) <= m && StmtMissed(s) !! m
  }

  predicate SeenBlock(m: set<string>, b: Block) {
    BlockSources(b) <= m && BlockMissed(b) !! m
  }

  lemma SeenParts(m: set<string>, e: Expr)
    requires Seen(m, e)
    ensures e.Binary? ==> Seen(m, e.lhs) && Seen(m, e.rhs)
    ensures e.Unary? ==> Seen(m, e.operand)
    ensures e.Call? ==> Seen(m, e.callee) && forall i :: 0 <= i < |e.args| ==> Seen(m, e.args[i])
    ensures e.BlockExpr? ==> SeenBlock(m, e.block)
    ensures e.If? ==> Seen(m, e.cond) && SeenBlock(m, e.yes) && (e.els.Some? ==> Seen(m, e.els.value))
    ensures e.Unwalked? ==> forall x :: x in e.names ==> x !in m
  {
  }

  lemma SeenStmtParts(m: set<string>, s: Stmt)
    requires SeenStmt(m, s)
    ensures s.Let? && s.init.Some? ==> Seen(m, s.init.value) && Source(s.init.value) <= m
    ensures s.Let? && s.init.None? && s.name.Some? ==> s.name.value !in m
    ensures s.Var? ==> Seen(m, s.value) && Source(s.value) <= m
    ensures s.Return? && s.result.Some? ==> Seen(m, s.result.value)
    ensures s.ExprStmt? ==> Seen(m, s.expr)
  {
  }

  lemma SeenBlockParts(m: set<string>, b: Block)
    requires SeenBlock(m, b)
    ensures forall i :: 0 <= i < |b.stmts| ==> SeenStmt(m, b.stmts[i])
    ensures b.trailing.Some? ==> Seen(m, b.trailing.value)
  {
  }

  /******* The walk only learns *******/

  ghost predicate Learns(w: Walker, v: Walker) {
    w.moved <= v.moved && w.live + w.moved <= v.live + v.moved && w.diags <= v.diags
  }

  lemma {:induction false} ExprLearns(w: Walker, e: Expr)
    ensures Learns(w, WalkExpr(w, e))
    decreases e, 1, 0
  {
    match e
    case Path(_, _) =>
    case Binary(l, r) =>
      ExprLearns(w, l);
      ExprLearns(WalkExpr(w, l), r);
    case Unary(x) => ExprLearns(w, x);
    case Call(f, args) =>
      ExprLearns(w, f);
      ArgsLearn(WalkExpr(w, f), e, 0);
    case BlockExpr(b) => BlockLearns(w, b, 0);
    case If(c, yes, els) =>
      ExprLearns(w, c);
      var w2 := WalkExpr(w, c);
      BlockLearns(w2, yes, 0);
      if els.Some? {
        ExprLearns(WalkBlock(w2, yes, 0), els.value);
      }
    case Unwalked(_) =>
  }

  lemma {:induction false} ArgsLearn(w: Walker, e: Expr, i: nat)
    requires e.Call? && i <= |e.args|
    ensures Learns(w, WalkArgs(w, e, i))
    decreases e, 0, |e.args| - i
  {
    if i < |e.args| {
      ExprLearns(w, e.args[i]);
      ArgsLearn(WalkExpr(w, e.args[i]), e, i + 1);
    }
  }

  lemma {:induction false} StmtLearns(w: Walker, s: Stmt)
    ensures Learns(w, WalkStmt(w, s))
    decreases s, 1, 0
  {
    match s
    case Let(_, init) =>
      if init.Some? {
        ExprLearns(w, init.value);
      }
    case Var(_, value) => ExprLearns(w, value);
    case Return(r) =>
      if r.Some? {
        ExprLearns(w, r.value);
      }
    case ExprStmt(x) => ExprLearns(w, x);
  }

  lemma {:induction false} BlockLearns(w: Walker, b: Block, i: nat)
    requires i <= |b.stmts|
    ensures Learns(w, WalkBlock(w, b, i))
    decreases b, 1, |b.stmts| - i
  {
    if i == |b.stmts| {
      if b.trailing.Some? {
        ExprLearns(w, b.trailing.value);
      }
    } else {
      StmtLearns(w, b.stmts[i]);
      BlockLearns(WalkStmt(w, b.stmts[i]), b, i + 1);
    }
  }

  /******* The walk knows every move *******/

  // Of the names m, every binding's name is live or moved for the walk; only
  // they are moved, and the walk knows which.
  ghost predicate Knows(m: set<string>, w: Walker, s: State) {
    && !s.bad
    && (forall i :: 0 <= i < |s.names| && s.names[i] in m ==> s.names[i] in w.live || s.names[i] in w.moved)
    && (forall i :: i in s.gone ==> i < |s.names| && s.names[i] in m && s.names[i] in w.moved)
    && (forall x :: x in s.scope ==> s.scope[x] < |s.names| && s.names[s.scope[x]] == x)
  }

  lemma KnowsMore(m: set<string>, w: Walker, v: Walker, s: State)
    requires Knows(m, w, s) && Learns(w, v)
    ensures Knows(m, v, s)
  {
    forall i | 0 <= i < |s.names| && s.names[i] in m
      ensures s.names[i] in v.live || s.names[i] in v.moved
    {
      assert s.names[i] in w.live + w.moved;
      assert s.names[i] in v.live + v.moved;
    }
  }

  lemma {:induction false} ExprSafe(m: set<string>, branch: nat -> bool, w: Walker, s: State, e: Expr)
    requires Knows(m, w, s) && Seen(m, e) && WalkExpr(w, e).diags == w.diags
    ensures Knows(m, WalkExpr(w, e), Exec(branch, s, e)) && s.names <= Exec(branch, s, e).names
    ensures Exec(branch, s, e).scope == s.scope
    decreases e, 1, 0
  {
    hide Knows, Learns, Seen, SeenStmt, SeenBlock;
    SeenParts(m, e);
    ExprLearns(w, e);
    if s.returned {
      KnowsMore(m, w, WalkExpr(w, e), s);
    } else {
      match e
      case Path(x, _) => ReadSafe(m, w, s, x);
      case Binary(l, r) =>
        ExprLearns(w, l);
        ExprLearns(WalkExpr(w, l), r);
        LearnsCounts(w, WalkExpr(w, l), WalkExpr(w, e));
        ExprSafe(m, branch, w, s, l);
        ExprSafe(m, branch, WalkExpr(w, l), Exec(branch, s, l), r);
      case Unary(x) => ExprSafe(m, branch, w, s, x);
      case Call(f, args) =>
        ExprLearns(w, f);
        ArgsLearn(WalkExpr(w, f), e, 0);
        LearnsCounts(w, WalkExpr(w, f), WalkExpr(w, e));
        ExprSafe(m, branch, w, s, f);
        ArgsSafe(m, branch, WalkExpr(w, f), Exec(branch, s, f), e, 0);
      case BlockExpr(b) => ScopedSafe(m, branch, w, s, b);
      case If(c, yes, els) => IfSafe(m, branch, w, s, e);
      case Unwalked(xs) => MissedReadsSafe(m, w, s, xs);
    }
  }

  // Names outside m are never moved.
  lemma {:induction false} MissedReadsSafe(m: set<string>, w: Walker, s: State, xs: seq<string>)
    requires Knows(m, w, s) && forall x :: x in xs ==> x !in m
    ensures ReadAll(s, xs) == s
    decreases xs
  {
    if xs != [] {
      assert xs[0] in xs;
      MissedReadsSafe(m, w, s, xs[1..]);
    }
  }

  lemma ReadSafe(m: set<string>, w: Walker, s: State, x: string)
    requires Knows(m, w, s) && Use(w, x).diags == w.diags
    ensures Knows(m, Use(w, x), Read(s, x)) && Read(s, x) == s
  {
  }

  lemma LearnsCounts(a: Walker, b: Walker, c: Walker)
    requires Learns(a, b) && Learns(b, c)
    ensures a.diags <= b.diags <= c.diags
  {
  }

  lemma {:induction false} IfSafe(m: set<string>, branch: nat -> bool, w: Walker, s: State, e: Expr)
    requires e.If? && Knows(m, w, s) && Seen(m, e) && WalkExpr(w, e).diags == w.diags && !s.returned
    ensures Knows(m, WalkExpr(w, e), Exec(branch, s, e)) && s.names <= Exec(branch, s, e).names
    ensures Exec(branch, s, e).scope == s.scope
    decreases e, 0, 0
  {
    hide Knows, Learns, Seen, SeenStmt, SeenBlock;
    SeenParts(m, e);
    var w1 := WalkExpr(w, e.cond);
    var w2 := WalkBlock(w1, e.yes, 0);
    ExprLearns(w, e.cond);
    BlockLearns(w1, e.yes, 0);
    if e.els.Some? {
      ExprLearns(w2, e.els.value);
      LearnsCounts(w1, w2, WalkExpr(w2, e.els.value));
    }
    LearnsCounts(w, w1, w2);
    ExprSafe(m, branch, w, s, e.cond);
    var t := Exec(branch, s, e.cond);
    var u := t.(ifs := t.ifs + 1);
    KnowsIfs(m, w1, t);
    if branch(t.ifs) {
      ScopedSafe(m, branch, w1, u, e.yes);
      if e.els.Some? {
        KnowsMore(m, w2, WalkExpr(w2, e.els.value), ExecScoped(branch, u, e.yes));
      }
    } else {
      KnowsMore(m, w1, w2, u);
      if e.els.Some? {
        ExprSafe(m, branch, w2, u, e.els.value);
      }
    }
  }

  lemma KnowsIfs(m: set<string>, w: Walker, s: State)
    requires Knows(m, w, s)
    ensures Knows(m, w, s.(ifs := s.ifs + 1)) && Knows(m, w, s.(returned := true))
  {
  }

  lemma {:induction false} ArgsSafe(m: set<string>, branch: nat -> bool, w: Walker, s: State, e: Expr, i: nat)
    requires e.Call? && i <= |e.args| && Knows(m, w, s) && Seen(m, e) && WalkArgs(w, e, i).diags == w.diags
    ensures Knows(m, WalkArgs(w, e, i), ExecArgs(branch, s, e, i)) && s.names <= ExecArgs(branch, s, e, i).names
    ensures ExecArgs(branch, s, e, i).scope == s.scope
    decreases e, 0, |e.args| - i
  {
    hide Knows, Learns, Seen, SeenStmt, SeenBlock;
    SeenParts(m, e);
    if i < |e.args| {
      var w1 := WalkExpr(w, e.args[i]);
      ExprLearns(w, e.args[i]);
      ArgsLearn(w1, e, i + 1);
      LearnsCounts(w, w1, WalkArgs(w, e, i));
      ExprSafe(m, branch, w, s, e.args[i]);
      ArgsSafe(m, branch, w1, Exec(branch, s, e.args[i]), e, i + 1);
    }
  }

  // Leaving a block: the outer scope comes back.
  lemma ScopedSafe(m: set<string>, branch: nat -> bool, w: Walker, s: State, b: Block)
    requires Knows(m, w, s) && SeenBlock(m, b) && WalkBlock(w, b, 0).diags == w.diags
    ensures Knows(m, WalkBlock(w, b, 0), ExecScoped(branch, s, b)) && s.names <= ExecScoped(branch, s, b).names
    ensures ExecScoped(branch, s, b).scope == s.scope
    decreases b, 2, 0
  {
    BlockSafe(m, branch, w, s, b, 0);
    var t := ExecBlock(branch, s, b, 0);
    RestoreScope(m, WalkBlock(w, b, 0), w, s, t);
  }

  lemma RestoreScope(m: set<string>, v: Walker, w: Walker, s: State, t: State)
    requires Knows(m, w, s) && Knows(m, v, t) && s.names <= t.names
    ensures Knows(m, v, t.(scope := s.scope))
  {
  }

  // A let or var: its value is read, perhaps moved, and its name is bound.
  lemma BindSafe(m: set<string>, w: Walker, s: State, value: Expr, x: Option<string>)
    requires Knows(m, w, s) && (value.Path? ==> value.name !in w.moved) && Source(value) <= m
    ensures var w2 := Take(w, value); var w3 := if x.Some? then w2.(live := w2.live + {x.value}) else w2;
      var t := MoveOut(s, value); var u := if x.Some? then Declare(t, x.value) else t;
      Knows(m, w3, u) && s.names <= u.names && Learns(w, w3)
  {
    var w2 := Take(w, value);
    var t := MoveOut(s, value);
    assert Knows(m, w2, t);
  }

  lemma DeferredSafe(m: set<string>, w: Walker, s: State, x: string)
    requires Knows(m, w, s) && x !in m
    ensures Knows(m, w, Declare(s, x)) && s.names <= Declare(s, x).names
  {
  }

  lemma {:induction false} StmtSafe(m: set<string>, branch: nat -> bool, w: Walker, s: State, st: Stmt)
    requires Knows(m, w, s) && SeenStmt(m, st) && WalkStmt(w, st).diags == w.diags
    ensures Knows(m, WalkStmt(w, st), ExecStmt(branch, s, st)) && s.names <= ExecStmt(branch, s, st).names
    decreases st, 1, 0
  {
    hide Knows, Learns, Seen, SeenStmt, SeenBlock;
    SeenStmtParts(m, st);
    StmtLearns(w, st);
    if s.returned {
      KnowsMore(m, w, WalkStmt(w, st), s);
    } else {
      match st
      case Let(x, init) =>
        if init.Some? {
          LetSafe(m, branch, w, s, init.value, x);
        } else if x.Some? {
          DeferredSafe(m, w, s, x.value);
        }
      case Var(x, value) => LetSafe(m, branch, w, s, value, Some(x));
      case Return(r) =>
        if r.Some? {
          ExprSafe(m, branch, w, s, r.value);
          KnowsIfs(m, WalkExpr(w, r.value), Exec(branch, s, r.value));
        } else {
          KnowsIfs(m, w, s);
        }
      case ExprStmt(x) => ExprSafe(m, branch, w, s, x);
    }
  }

  lemma {:induction false} LetSafe(m: set<string>, branch: nat -> bool, w: Walker, s: State, value: Expr, x: Option<string>)
    requires Knows(m, w, s) && Seen(m, value) && Source(value) <= m && WalkExpr(w, value).diags == w.diags
    ensures var w2 := Take(WalkExpr(w, value), value); var w3 := if x.Some? then w2.(live := w2.live + {x.value}) else w2;
      var t := Exec(branch, s, value);
      var u := if t.returned then t else if x.Some? then Declare(MoveOut(t, value), x.value) else MoveOut(t, value);
      Knows(m, w3, u) && s.names <= u.names
    decreases value, 2, 0
  {
    var w1 := WalkExpr(w, value);
    ExprSafe(m, branch, w, s, value);
    BindSafe(m, w1, Exec(branch, s, value), value, x);
    if Exec(branch, s, value).returned {
      var w2 := Take(w1, value);
      KnowsMore(m, w1, if x.Some? then w2.(live := w2.live + {x.value}) else w2, Exec(branch, s, value));
    }
  }

  lemma {:induction false} BlockSafe(m: set<string>, branch: nat -> bool, w: Walker, s: State, b: Block, i: nat)
    requires i <= |b.stmts| && Knows(m, w, s) && SeenBlock(m, b) && WalkBlock(w, b, i).diags == w.diags
    ensures Knows(m, WalkBlock(w, b, i), ExecBlock(branch, s, b, i)) && s.names <= ExecBlock(branch, s, b, i).names
    decreases b, 1, |b.stmts| - i
  {
    hide Knows, Learns, Seen, SeenStmt, SeenBlock;
    SeenBlockParts(m, b);
    if i == |b.stmts| {
      if b.trailing.Some? {
        ExprSafe(m, branch, w, s, b.trailing.value);
      }
    } else {
      var w1 := WalkStmt(w, b.stmts[i]);
      StmtLearns(w, b.stmts[i]);
      BlockLearns(w1, b, i + 1);
      LearnsCounts(w, w1, WalkBlock(w, b, i));
      StmtSafe(m, branch, w, s, b.stmts[i]);
      BlockSafe(m, branch, w1, ExecStmt(branch, s, b.stmts[i]), b, i + 1);
    }
  }

  lemma {:induction false} StartKnown(params: seq<string>)
    ensures forall x :: x in ScopeOf(params) ==> ScopeOf(params)[x] < |params| && params[ScopeOf(params)[x]] == x
  {
    if params != [] {
      StartKnown(params[..|params| - 1]);
    }
  }

  // A body without diagnostics never reads a binding after a let or var moved
  // it, whichever way its conditions go, if no name that is moved anywhere in
  // it is read in a form that the walk does not enter or declared without an
  // initialiser. Names that are never moved may be.
  lemma NoUseAfterMove(branch: nat -> bool, params: seq<string>, body: Block)
    requires SeesMoves(body) && WalkFn(params, body).diags == 0
    ensures !ExecFn(branch, params, body).bad
  {
    var m := BlockSources(body);
    var w := Begin(params);
    StartKnown(params);
    assert Knows(m, w, Start(params));
    BlockSafe(m, branch, w, Start(params), body, 0);
  }

  // A binding declared without an initialiser is never live for the walk, so
  // nothing is reported when it is moved and read again: after `let x; let y = x;`
  // reading z reads a moved binding exactly when z is x, not Copy and not y.
  lemma DeferredInitialiserEscapes(branch: nat -> bool, x: string, copy: bool, y: string, z: string)
    ensures var body := Block([Let(Some(x), None), Let(Some(y), Some(Path(x, copy)))], Some(Path(z, copy)));
      WalkFn([], body).diags == 0 && (ExecFn(branch, [], body).bad <==> z == x && x != y && !copy)
  {
    var body := Block([Let(Some(x), None), Let(Some(y), Some(Path(x, copy)))], Some(Path(z, copy)));
    var w0 := Walker({}, {}, 0);
    assert Begin([]) == w0;
    assert WalkExpr(w0, Path(x, copy)) == w0;
    var w2 := WalkStmt(w0, body.stmts[1]);
    assert w2.live == {y} && w2.moved == {} && w2.diags == 0;
    assert WalkBlock(w2, body, 2) == w2;
    assert WalkBlock(w0, body, 1) == w2;
    assert WalkStmt(w0, body.stmts[0]) == w0;
    assert WalkBlock(w0, body, 0) == w2;
    var s1 := ExecStmt(branch, Start([]), body.stmts[0]);
    assert s1 == Declare(Start([]), x) && s1.scope == map[x := 0];
    assert Exec(branch, s1, Path(x, copy)) == s1;
    var s2 := ExecStmt(branch, s1, body.stmts[1]);
    assert s2 == Declare(MoveOut(s1, Path(x, copy)), y);
    assert s2.scope == map[x := 0][y := 1] && s2.gone == if copy then {} else {0};
    var s3 := Read(s2, z);
    assert ExecBlock(branch, s2, body, 2) == s3;
    assert ExecBlock(branch, s1, body, 1) == s3;
  }

  // A form that the walk does not enter, such as a field access, may read a
  // moved binding: after `let y = x;` it does exactly when it reads x and x is
  // not bound again.
  lemma UnwalkedReadEscapes(branch: nat -> bool, x: string, y: string, xs: seq<string>)
    ensures var body := Block([Let(Some(y), Some(Path(x, false)))], Some(Unwalked(xs)));
      WalkFn([x], body).diags == 0 && (ExecFn(branch, [x], body).bad <==> x in xs && x != y)
  {
    var body := Block([Let(Some(y), Some(Path(x, false)))], Some(Unwalked(xs)));
    var w0 := Walker({x}, {}, 0);
    assert Begin([x]) == w0 by {
      assert [x][0] in Begin([x]).live;
    }
    var w1 := WalkStmt(w0, body.stmts[0]);
    assert WalkExpr(w0, Path(x, false)) == w0;
    assert WalkBlock(w1, body, 1) == w1 && w1.diags == 0;
    var s0, ps := Start([x]), [x];
    assert ps[..0] == [] && ps[0] == x && ScopeOf([]) == map[];
    assert ScopeOf(ps) == map[x := 0];
    var s1 := ExecStmt(branch, s0, body.stmts[0]);
    assert Exec(branch, s0, Path(x, false)) == s0;
    assert s1 == Declare(MoveOut(s0, Path(x, false)), y);
    assert s1.gone == {0} && s1.scope == map[x := 0][y := 1];
    ReadsOne(s1, x, y, xs);
    assert ExecBlock(branch, s1, body, 1) == ReadAll(s1, xs);
  }

  lemma {:induction false} ReadsOne(s: State, x: string, y: string, xs: seq<string>)
    requires s.gone == {0} && (forall z :: z in s.scope <==> z == x || z == y)
    requires s.scope[y] == 1 && (x != y ==> s.scope[x] == 0)
    ensures ReadAll(s, xs).bad <==> s.bad || (x in xs && x != y)
    decreases xs
  {
    if xs != [] {
      ReadsOne(Read(s, xs[0]), x, y, xs[1..]);
      assert xs == [xs[0]] + xs[1..];
    }
  }
}
