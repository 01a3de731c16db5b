// The walk as the analyzer runs it: the live and moved names and the
// diagnostics are updated in place.
module MoveChecker {
  import opened Moves

  class MoveEnv {
    var live: set<string>
    var moved: set<string>
    var diags: nat

    constructor (params: seq<string>)
      ensures Now() == Begin(params)
    {
      live, moved, diags := set i | 0 <= i < |params| :: params[i], {}, 0;
    }

    function Now(): Walker
      reads this
    {
      Walker(live, moved, diags)
    }

    method VisitBlock(b: Block)
      modifies this
      ensures Now() == WalkBlock(old(Now()), b, 0)
      decreases b, 2
    {
      var i := 0;
      while i < |b.stmts|
        invariant i <= |b.stmts| && WalkBlock(Now(), b, i) == WalkBlock(old(Now()), b, 0)
      {
        VisitStmt(b.stmts[i]);
        i := i + 1;
      }
      if b.trailing.Some? {
        VisitExpr(b.trailing.value);
      }
    }

    method VisitStmt(s: Stmt)
      modifies this
      ensures Now() == WalkStmt(old(Now()), s)
      decreases s, 1
    {
      match s
      case Let(x, init) =>
        if init.Some? {
          VisitExpr(init.value);
          TakeFrom(init.value);
          if x.Some? {
            live := live + {x.value};
          }
        }
      case Var(x, value) =>
        VisitExpr(value);
        TakeFrom(value);
        live := live + {x};
      case Return(r) =>
        if r.Some? {
          VisitExpr(r.value);
        }
      case ExprStmt(x) => VisitExpr(x);
    }

    method TakeFrom(value: Expr)
      modifies this
      ensures Now() == Take(old(Now()), value)
    {
      if value.Path? && value.name in live && !value.copy {
        moved := moved + {value.name};
        live := live - {value.name};
      }
    }

    method VisitExpr(e: Expr)
      modifies this
      ensures Now() == WalkExpr(old(Now()), e)
      decreases e, 1
    {
      match e
      case Path(x, _) =>
        if x in moved {
          diags := diags + 1;
        }
      case Binary(l, r) =>
        VisitExpr(l);
        VisitExpr(r);
      case Unary(x) => VisitExpr(x);
      case Call(f, args) =>
        VisitExpr(f);
        ghost var w := Now();
        var i := 0;
        while i < |args|
          invariant i <= |args| && WalkArgs(Now(), e, i) == WalkArgs(w, e, 0)
        {
          VisitExpr(args[i]);
          i := i + 1;
        }
      case BlockExpr(b) => VisitBlock(b);
      case If(c, yes, els) =>
        VisitExpr(c);
        VisitBlock(yes);
        if els.Some? {
          VisitExpr(els.value);
        }
      case Unwalked(_) =>
    }
  }

  // The number of diagnostics. None means that no execution reads a moved
  // binding.
  method CheckUseAfterMove(params: seq<string>, body: Block) returns (diags: nat)
    ensures diags == WalkFn(params, body).diags
    ensures diags == 0 && SeesMoves(body) ==> forall branch :: !ExecFn(branch, params, body).bad
  {
    var env := new MoveEnv(params);
    env.VisitBlock(body);
    diags := env.diags;
    if diags == 0 && SeesMoves(body) {
      forall branch
        ensures !ExecFn(branch, params, body).bad
      {
        NoUseAfterMove(branch, params, body);
      }
    }
  }
}
