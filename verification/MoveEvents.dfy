// Which diagnostics the walk gives: a body's reads, moves and bindings in the
// order of its text, and the reads that come after a move.
module MoveEvents {
  import opened Moves

  datatype Event = Reads(name: string) | Takes(name: string) | Binds(name: string)

  /******* A body as events *******/

  function Events(e: Expr): seq<Event>
    decreases e, 1, 0
  {
    match e
    case Path(x, _) => [Reads(x)]
    case Binary(l, r) => Events(l) + Events(r)
    case Unary(x) => Events(x)
    case Call(f, _) => Events(f) + ArgEvents(e, 0)
    case BlockExpr(b) => BlockEvents(b, 0)
    case If(c, yes, els) => Events(c) + BlockEvents(yes, 0) + if els.Some? then Events(els.value) else []
    case Unwalked(_) => []
  }

  function ArgEvents(e: Expr, i: nat): seq<Event>
    requires e.Call? && i <= |e.args|
    decreases e, 0, |e.args| - i
  {
    if i == |e.args| then [] else Events(e.args[i]) + ArgEvents(e, i + 1)
  }

  // A value is read, then moved if it is a bare path of a type that is not
  // Copy, and then its name is bound.
  function BindEvents(x: Option<string>, value: Expr): seq<Event>
    decreases value, 2, 0
  {
    Events(value)
    + (if value.Path? && !value.copy then [Takes(value.name)] else [])
    + (if x.Some? then [Binds(x.value)] else [])
  }

  function StmtEvents(s: Stmt): seq<Event>
    decreases s, 1, 0
  {
    match s
    case Let(x, init) => if init.Some? then BindEvents(x, init.value) else []
    case Var(x, value) => BindEvents(Some(x), value)
    case Return(r) => if r.Some? then Events(r.value) else []
    case ExprStmt(x) => Events(x)
  }

  function BlockEvents(b: Block, i: nat): seq<Event>
    requires i <= |b.stmts|
    decreases b, 1, |b.stmts| - i
  {
    if i == |b.stmts| then (if b.trailing.Some? then Events(b.trailing.value) else [])
    else StmtEvents(b.stmts[i]) + BlockEvents(b, i + 1)
  }

  /******* Late reads *******/

  // x is a parameter, or is bound before the j-th event.
  predicate Bound(params: seq<string>, es: seq<Event>, j: nat, x: string)
    requires j <= |es|
  {
    x in params || exists i :: 0 <= i < j && es[i] == Binds(x)
  }

  // Before the k-th event x is moved, when it is already bound.
  predicate Gone(params: seq<string>, es: seq<Event>, k: nat, x: string)
    requires k <= |es|
  {
    exists j :: 0 <= j < k && es[j] == Takes(x) && Bound(params, es, j, x)
  }

  function LateReads(params: seq<string>, es: seq<Event>): set<nat> {
    set k: nat | k < |es| && es[k].Reads? && Gone(params, es, k, es[k].name)
  }

  /******* The walk counts them *******/

  ghost predicate Tracks(params: seq<string>, es: seq<Event>, w: Walker) {
    && (forall x :: x in w.live || x in w.moved <==> Bound(params, es, |es|, x))
    && (forall x :: x in w.moved <==> Gone(params, es, |es|, x))
    && w.diags == |LateReads(params, es)|
  }

  lemma BoundBefore(params: seq<string>, es: seq<Event>, ev: Event, j: nat, x: string)
    requires j <= |es|
    ensures Bound(params, es + [ev], j, x) <==> Bound(params, es, j, x)
  {
    var fs := es + [ev];
    assert forall i :: 0 <= i < j ==> fs[i] == es[i];
  }

  lemma GoneBefore(params: seq<string>, es: seq<Event>, ev: Event, k: nat, x: string)
    requires k <= |es|
    ensures Gone(params, es + [ev], k, x) <==> Gone(params, es, k, x)
  {
    hide Bound;
    var fs := es + [ev];
    forall j: nat | j < k
      ensures fs[j] == es[j] && (Bound(params, fs, j, x) <==> Bound(params, es, j, x))
    {
      BoundBefore(params, es, ev, j, x);
    }
  }

  lemma BoundNow(params: seq<string>, es: seq<Event>, ev: Event, x: string)
    ensures Bound(params, es + [ev], |es| + 1, x) <==> Bound(params, es, |es|, x) || ev == Binds(x)
  {
    var fs := es + [ev];
    BoundBefore(params, es, ev, |es|, x);
    assert fs[|es|] == ev;
  }

  lemma GoneNow(params: seq<string>, es: seq<Event>, ev: Event, x: string)
    ensures Gone(params, es + [ev], |es| + 1, x) <==> Gone(params, es, |es|, x) || (ev == Takes(x) && Bound(params, es, |es|, x))
  {
    hide Bound;
    var fs := es + [ev];
    GoneBefore(params, es, ev, |es|, x);
    BoundBefore(params, es, ev, |es|, x);
    assert fs[|es|] == ev;
  }

  lemma LateNow(params: seq<string>, es: seq<Event>, ev: Event)
    ensures LateReads(params, es + [ev])
         == LateReads(params, es) + if ev.Reads? && Gone(params, es, |es|, ev.name) then {|es|} else {}
  {
    hide Gone;
    var fs := es + [ev];
    forall k: nat | k <= |es|
      ensures k < |es| ==> fs[k] == es[k]
      ensures Gone(params, fs, k, fs[k].name) <==> Gone(params, es, k, fs[k].name)
    {
      GoneBefore(params, es, ev, k, fs[k].name);
    }
    assert fs[|es|] == ev;
  }

  lemma OneMore(params: seq<string>, es: seq<Event>, w: Walker, ev: Event)
    requires Tracks(params, es, w)
    ensures ev.Reads? ==> Tracks(params, es + [ev], Use(w, ev.name))
    ensures ev.Binds? ==> Tracks(params, es + [ev], w.(live := w.live + {ev.name}))
    ensures ev.Takes? ==> Tracks(params, es + [ev], Take(w, Path(ev.name, false)))
  {
    hide Bound, Gone, LateReads;
    LateNow(params, es, ev);
    assert |es| !in LateReads(params, es) by { OnlyPositions(params, es); }
    forall x
      ensures Bound(params, es + [ev], |es| + 1, x) <==> Bound(params, es, |es|, x) || ev == Binds(x)
    {
      BoundNow(params, es, ev, x);
    }
    forall x
      ensures Gone(params, es + [ev], |es| + 1, x) <==> Gone(params, es, |es|, x) || (ev == Takes(x) && Bound(params, es, |es|, x))
    {
      GoneNow(params, es, ev, x);
    }
  }

  lemma OnlyPositions(params: seq<string>, es: seq<Event>)
    ensures |es| !in LateReads(params, es)
  {
  }

  lemma {:induction false} TracksExpr(params: seq<string>, es: seq<Event>, w: Walker, e: Expr)
    requires Tracks(params, es, w)
    ensures Tracks(params, es + Events(e), WalkExpr(w, e))
    decreases e, 1, 0
  {
    hide Tracks;
    match e
    case Path(x, _) => OneMore(params, es, w, Reads(x));
    case Binary(l, r) =>
      TracksExpr(params, es, w, l);
      TracksExpr(params, es + Events(l), WalkExpr(w, l), r);
      assert es + Events(e) == es + Events(l) + Events(r);
    case Unary(x) => TracksExpr(params, es, w, x);
    case Call(f, args) =>
      TracksExpr(params, es, w, f);
      TracksArgs(params, es + Events(f), WalkExpr(w, f), e, 0);
      assert es + Events(e) == es + Events(f) + ArgEvents(e, 0);
    case BlockExpr(b) => TracksBlock(params, es, w, b, 0);
    case If(c, yes, els) =>
      var w1, es1 := WalkExpr(w, c), es + Events(c);
      TracksExpr(params, es, w, c);
      TracksBlock(params, es1, w1, yes, 0);
      var es2 := es1 + BlockEvents(yes, 0);
      if els.Some? {
        TracksExpr(params, es2, WalkBlock(w1, yes, 0), els.value);
        assert es + Events(e) == es2 + Events(els.value);
      } else {
        assert es + Events(e) == es2;
      }
    case Unwalked(_) => assert es + [] == es;
  }

  lemma {:induction false} TracksArgs(params: seq<string>, es: seq<Event>, w: Walker, e: Expr, i: nat)
    requires e.Call? && i <= |e.args| && Tracks(params, es, w)
    ensures Tracks(params, es + ArgEvents(e, i), WalkArgs(w, e, i))
    decreases e, 0, |e.args| - i
  {
    hide Tracks;
    if i == |e.args| {
      assert es + [] == es;
    } else {
      TracksExpr(params, es, w, e.args[i]);
      TracksArgs(params, es + Events(e.args[i]), WalkExpr(w, e.args[i]), e, i + 1);
      assert es + ArgEvents(e, i) == es + Events(e.args[i]) + ArgEvents(e, i + 1);
    }
  }

  lemma {:induction false} TracksBind(params: seq<string>, es: seq<Event>, w: Walker, x: Option<string>, value: Expr)
    requires Tracks(params, es, w)
    ensures var w2 := Take(WalkExpr(w, value), value);
      Tracks(params, es + BindEvents(x, value), if x.Some? then w2.(live := w2.live + {x.value}) else w2)
    decreases value, 2, 0
  {
    hide Tracks;
    TracksExpr(params, es, w, value);
    var w1, es1 := WalkExpr(w, value), es + Events(value);
    var moves := value.Path? && !value.copy;
    var es2 := es1 + if moves then [Takes(value.name)] else [];
    if moves {
      OneMore(params, es1, w1, Takes(value.name));
      assert Path(value.name, false) == value;
    } else {
      assert es2 == es1;
    }
    if x.Some? {
      OneMore(params, es2, Take(w1, value), Binds(x.value));
    }
    assert es + BindEvents(x, value) == if x.Some? then es2 + [Binds(x.value)] else es2;
  }

  lemma {:induction false} TracksStmt(params: seq<string>, es: seq<Event>, w: Walker, s: Stmt)
    requires Tracks(params, es, w)
    ensures Tracks(params, es + StmtEvents(s), WalkStmt(w, s))
    decreases s, 1, 0
  {
    hide Tracks;
    assert es + [] == es;
    match s
    case Let(x, init) =>
      if init.Some? {
        TracksBind(params, es, w, x, init.value);
      }
    case Var(x, value) => TracksBind(params, es, w, Some(x), value);
    case Return(r) =>
      if r.Some? {
        TracksExpr(params, es, w, r.value);
      }
    case ExprStmt(x) => TracksExpr(params, es, w, x);
  }

  lemma {:induction false} TracksBlock(params: seq<string>, es: seq<Event>, w: Walker, b: Block, i: nat)
    requires i <= |b.stmts| && Tracks(params, es, w)
    ensures Tracks(params, es + BlockEvents(b, i), WalkBlock(w, b, i))
    decreases b, 1, |b.stmts| - i
  {
    hide Tracks;
    if i < |b.stmts| {
      TracksStmt(params, es, w, b.stmts[i]);
      TracksBlock(params, es + StmtEvents(b.stmts[i]), WalkStmt(w, b.stmts[i]), b, i + 1);
      assert es + BlockEvents(b, i) == es + StmtEvents(b.stmts[i]) + BlockEvents(b, i + 1);
    } else if b.trailing.Some? {
      TracksExpr(params, es, w, b.trailing.value);
    } else {
      assert es + [] == es;
    }
  }

  // There is one diagnostic for every read of a name that was moved earlier in
  // the text, by a let or var, when it was a parameter or already bound.
  lemma DiagnosticsAreLateReads(params: seq<string>, body: Block)
    ensures WalkFn(params, body).diags == |LateReads(params, BlockEvents(body, 0))|
  {
    var es: seq<Event> := [];
    assert LateReads(params, es) == {};
    assert Tracks(params, es, Begin(params));
    TracksBlock(params, es, Begin(params), body, 0);
    assert es + BlockEvents(body, 0) == BlockEvents(body, 0);
  }

  // A diagnostic has a read behind it, and a move before that, and before that
  // a binding or a parameter; where there are three such, there is a diagnostic.
  lemma DiagnosedIff(params: seq<string>, body: Block)
    ensures WalkFn(params, body).diags > 0 <==>
      exists k, j :: 0 <= j < k < |BlockEvents(body, 0)| && var es := BlockEvents(body, 0);
        es[k].Reads? && es[j] == Takes(es[k].name) && Bound(params, es, j, es[k].name)
  {
    var es := BlockEvents(body, 0);
    DiagnosticsAreLateReads(params, body);
    if WalkFn(params, body).diags > 0 {
      var k :| k in LateReads(params, es);
    }
    forall k, j | 0 <= j < k < |es| && es[k].Reads? && es[j] == Takes(es[k].name) && Bound(params, es, j, es[k].name)
      ensures WalkFn(params, body).diags > 0
    {
      assert k in LateReads(params, es);
    }
  }

  /******* Only moved names *******/

  predicate TakesWithin(es: seq<Event>, m: set<string>) {
    forall i :: 0 <= i < |es| && es[i].Takes? ==> es[i].name in m
  }

  lemma TakesJoin(es: seq<Event>, fs: seq<Event>, m: set<string>)
    requires TakesWithin(es, m) && TakesWithin(fs, m)
    ensures TakesWithin(es + fs, m)
  {
  }

  lemma {:induction false} ExprTakes(e: Expr)
    ensures TakesWithin(Events(e), Sources(e))
    decreases e, 1, 0
  {
    match e
    case Path(_, _) =>
    case Binary(l, r) =>
      ExprTakes(l);
      ExprTakes(r);
    case Unary(x) => ExprTakes(x);
    case Call(f, args) =>
      ExprTakes(f);
      ArgsTake(e, 0);
    case BlockExpr(b) => BlockTakes(b, 0);
    case If(c, yes, els) =>
      ExprTakes(c);
      BlockTakes(yes, 0);
      if els.Some? {
        ExprTakes(els.value);
      }
    case Unwalked(_) =>
  }

  lemma {:induction false} ArgsTake(e: Expr, i: nat)
    requires e.Call? && i <= |e.args|
    ensures TakesWithin(ArgEvents(e, i), Sources(e))
    decreases e, 0, |e.args| - i
  {
    if i < |e.args| {
      ExprTakes(e.args[i]);
      ArgsTake(e, i + 1);
      assert Sources(e.args[i]) <= Sources(e);
    }
  }

  lemma {:induction false} StmtTakes(s: Stmt)
    ensures TakesWithin(StmtEvents(s), StmtSources(s))
    decreases s, 1, 0
  {
    match s
    case Let(_, init) =>
      if init.Some? {
        ExprTakes(init.value);
      }
    case Var(_, value) => ExprTakes(value);
    case Return(r) =>
      if r.Some? {
        ExprTakes(r.value);
      }
    case ExprStmt(x) => ExprTakes(x);
  }

  lemma {:induction false} BlockTakes(b: Block, i: nat)
    requires i <= |b.stmts|
    ensures TakesWithin(BlockEvents(b, i), BlockSources(b))
    decreases b, 1, |b.stmts| - i
  {
    if i < |b.stmts| {
      StmtTakes(b.stmts[i]);
      BlockTakes(b, i + 1);
      assert StmtSources(b.stmts[i]) <= BlockSources(b);
    } else if b.trailing.Some? {
      ExprTakes(b.trailing.value);
    }
  }

  // A body that moves no name gets no diagnostic.
  lemma NoMovesNoDiagnostics(params: seq<string>, body: Block)
    requires BlockSources(body) == {}
    ensures WalkFn(params, body).diags == 0
  {
    BlockTakes(body, 0);
    DiagnosedIff(params, body);
  }

  /******* Reported, and never a moved binding *******/

  // After `let y = x; let x = v;` a read of x is reported, though it is the
  // second x that is read.
  lemma ShadowedIsReported(branch: nat -> bool, x: string, y: string, z: string)
    ensures var body := Block([Let(Some(y), Some(Path(x, false))), Let(Some(x), Some(Unwalked([])))], Some(Path(z, true)));
      (WalkFn([x], body).diags > 0 <==> z == x) && !ExecFn(branch, [x], body).bad
  {
    var body := Block([Let(Some(y), Some(Path(x, false))), Let(Some(x), Some(Unwalked([])))], Some(Path(z, true)));
    ShadowedEvents(x, y, z);
    DiagnosedIff([x], body);
    var es := [Reads(x), Takes(x), Binds(y), Binds(x), Reads(z)];
    assert Bound([x], es, 1, x) by { assert [x][0] == x; }
    assert z == x ==> es[4].Reads? && es[1] == Takes(es[4].name);
    var ps := [x];
    assert ps[..0] == [] && ps[0] == x && ScopeOf([]) == map[];
    var s0 := Start([x]);
    assert s0.scope == map[x := 0];
    var s1 := ExecStmt(branch, s0, body.stmts[0]);
    assert Exec(branch, s0, Path(x, false)) == s0;
    assert s1 == Declare(MoveOut(s0, Path(x, false)), y);
    var s2 := ExecStmt(branch, s1, body.stmts[1]);
    assert Exec(branch, s1, Unwalked([])) == s1;
    assert s2 == Declare(s1, x) && s2.gone == {0} && s2.scope == map[x := 0][y := 1][x := 2];
    assert ExecBlock(branch, s2, body, 2) == Read(s2, z) == s2;
    assert ExecBlock(branch, s1, body, 1) == s2;
  }

  lemma ShadowedEvents(x: string, y: string, z: string)
    ensures BlockEvents(Block([Let(Some(y), Some(Path(x, false))), Let(Some(x), Some(Unwalked([])))], Some(Path(z, true))), 0)
         == [Reads(x), Takes(x), Binds(y), Binds(x), Reads(z)]
  {
    var body := Block([Let(Some(y), Some(Path(x, false))), Let(Some(x), Some(Unwalked([])))], Some(Path(z, true)));
    assert BindEvents(Some(y), Path(x, false)) == [Reads(x)] + [Takes(x)] + [Binds(y)];
    assert StmtEvents(body.stmts[0]) == [Reads(x), Takes(x), Binds(y)];
    assert StmtEvents(body.stmts[1]) == [Binds(x)];
    assert BlockEvents(body, 2) == [Reads(z)];
    assert BlockEvents(body, 1) == [Binds(x), Reads(z)];
  }
}
