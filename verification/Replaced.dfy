// What substitution replaces, and that it leaves nothing to replace.
module Replaced {
  import opened Integers
  import opened Literals
  import opened Constants
  import opened ConstantValues
  import opened Evaluator
  import opened Substitution

  predicate HasLiteral(v: Value) {
    v.IntV? || v.BoolV? || v.CharV?
  }

  // A path that names an evaluated constant, or else static, whose value has a
  // literal.
  predicate Due(res: Result, e: Expr) {
    && e.Path? && e.sym != 0
    && (if e.sym in res.consts then HasLiteral(res.consts[e.sym])
        else e.sym in res.statics && HasLiteral(res.statics[e.sym]))
  }

  function Named(res: Result, e: Expr): Value
    requires Due(res, e)
  {
    if e.sym in res.consts then res.consts[e.sym] else res.statics[e.sym]
  }

  // Such a path becomes a literal: of its own type, reading back as the word of
  // the value, or the truth value. Every other path is kept.
  lemma PathBecomesLiteral(res: Result, e: Expr)
    requires e.Path?
    ensures !Due(res, e) ==> Replace(res, e) == e
    ensures Due(res, e) && Named(res, e).BoolV? ==> Replace(res, e) == BoolLit(Named(res, e).b)
    ensures Due(res, e) && Named(res, e).IntV? && Named(res, e).n < TWO64 ==>
      Replace(res, e).IntLit? && Replace(res, e).ty == e.ty && ParseInteger(Replace(res, e).text) == Some(Named(res, e).n)
    ensures Due(res, e) && Named(res, e).CharV? && Named(res, e).cp < TWO64 ==>
      Replace(res, e).IntLit? && Replace(res, e).ty == e.ty && ParseInteger(Replace(res, e).text) == Some(Named(res, e).cp)
  {
    hide ParseInteger, Decimal;
    if Due(res, e) {
      var v := Named(res, e);
      if v.IntV? && v.n < TWO64 {
        PrintThenRead(v.n);
      } else if v.CharV? && v.cp < TWO64 {
        PrintThenRead(v.cp);
      }
    }
  }

  /******* Nothing is left *******/

  // No path in the tree is due. The bounds of range patterns do not count.
  predicate Clean(res: Result, e: Expr)
    decreases e
  {
    match e
    case Path(_, _, _) => !Due(res, e)
    case Unary(_, x) => Clean(res, x)
    case Binary(_, l, r) => Clean(res, l) && Clean(res, r)
    case Cast(x, _) => Clean(res, x)
    case Tuple(args, _) => forall i :: 0 <= i < |args| ==> Clean(res, args[i])
    case Field(x, _) => Clean(res, x)
    case If(c, b, els) => Clean(res, c) && CleanBlock(res, b) && (els.Some? ==> Clean(res, els.value))
    case BlockExpr(b) => CleanBlock(res, b)
    case Call(callee, args) => Clean(res, callee) && forall i :: 0 <= i < |args| ==> Clean(res, args[i])
    case Match(s, arms) => Clean(res, s) && forall i :: 0 <= i < |arms| ==> CleanArm(res, arms[i])
    case Loop(b) => CleanBlock(res, b)
    case While(c, b) => Clean(res, c) && CleanBlock(res, b)
    case _ => true
  }

  predicate CleanBlock(res: Result, b: Block)
    decreases b
  {
    && (forall i :: 0 <= i < |b.stmts| ==> CleanStmt(res, b.stmts[i]))
    && (b.trailing.Some? ==> Clean(res, b.trailing.value))
  }

  predicate CleanStmt(res: Result, s: Stmt)
    decreases s
  {
    match s
    case Let(_, init) => init.Some? ==> Clean(res, init.value)
    case Var(_, value) => Clean(res, value)
    case Return(r) => r.Some? ==> Clean(res, r.value)
    case Break(r) => r.Some? ==> Clean(res, r.value)
    case ExprStmt(x) => Clean(res, x)
    case _ => true
  }

  predicate CleanArm(res: Result, a: Arm)
    decreases a
  {
    (a.guard.Some? ==> Clean(res, a.guard.value)) && CleanBlock(res, a.body)
  }

  // Wherever a path was due, none is after substitution.
  lemma {:induction false} NothingLeft(res: Result, e: Expr)
    ensures Clean(res, Replace(res, e))
    decreases e
  {
    hide Decimal, Due;
    match e
    case Path(_, _, _) =>
      PathBecomesLiteral(res, e);
      LiteralIsClean(res, e);
    case Unary(_, x) => NothingLeft(res, x);
    case Binary(_, l, r) =>
      NothingLeft(res, l);
      NothingLeft(res, r);
    case Cast(x, _) => NothingLeft(res, x);
    case Tuple(args, _) =>
      forall i | 0 <= i < |args|
        ensures Clean(res, Replace(res, args[i]))
      {
        NothingLeft(res, args[i]);
      }
    case Field(x, _) => NothingLeft(res, x);
    case If(c, b, els) =>
      NothingLeft(res, c);
      NothingLeftBlock(res, b);
      if els.Some? {
        NothingLeft(res, els.value);
      }
    case BlockExpr(b) => NothingLeftBlock(res, b);
    case Call(callee, args) =>
      NothingLeft(res, callee);
      forall i | 0 <= i < |args|
        ensures Clean(res, Replace(res, args[i]))
      {
        NothingLeft(res, args[i]);
      }
    case Match(s, arms) =>
      NothingLeft(res, s);
      forall i | 0 <= i < |arms|
        ensures CleanArm(res, ReplaceArm(res, arms[i]))
      {
        if arms[i].guard.Some? {
          NothingLeft(res, arms[i].guard.value);
        }
        NothingLeftBlock(res, arms[i].body);
      }
    case Loop(b) => NothingLeftBlock(res, b);
    case While(c, b) =>
      NothingLeft(res, c);
      NothingLeftBlock(res, b);
    case _ =>
  }

  lemma LiteralIsClean(res: Result, e: Expr)
    requires e.Path?
    ensures Clean(res, Replace(res, e))
  {
    hide Decimal;
  }

  lemma {:induction false} NothingLeftBlock(res: Result, b: Block)
    ensures CleanBlock(res, ReplaceBlock(res, b))
    decreases b
  {
    hide Replace, Clean;
    if b.trailing.Some? {
      NothingLeft(res, b.trailing.value);
    }
    forall i | 0 <= i < |b.stmts|
      ensures CleanStmt(res, ReplaceStmt(res, b.stmts[i]))
    {
      NothingLeftStmt(res, b.stmts[i]);
    }
  }

  lemma {:induction false} NothingLeftStmt(res: Result, s: Stmt)
    ensures CleanStmt(res, ReplaceStmt(res, s))
    decreases s
  {
    hide Replace, Clean;
    match s
    case Let(_, init) =>
      if init.Some? {
        NothingLeft(res, init.value);
      }
    case Var(_, value) => NothingLeft(res, value);
    case Return(r) =>
      if r.Some? {
        NothingLeft(res, r.value);
      }
    case Break(r) =>
      if r.Some? {
        NothingLeft(res, r.value);
      }
    case ExprStmt(x) => NothingLeft(res, x);
    case _ =>
  }

  // Whole programs: every initialiser and function body.
  lemma ProgramCleaned(p: Program, res: Result)
    ensures var q := Substituted(p, res);
      && (forall s :: s in q.consts && q.consts[s].Some? ==> Clean(res, q.consts[s].value))
      && (forall s :: s in q.statics && q.statics[s].Some? ==> Clean(res, q.statics[s].value))
      && (forall s :: s in q.fns && q.fns[s].body.Some? ==> CleanBlock(res, q.fns[s].body.value))
  {
    hide Clean, CleanBlock, Replace, ReplaceBlock;
    forall s | s in p.consts && p.consts[s].Some?
      ensures Clean(res, Replace(res, p.consts[s].value))
    {
      NothingLeft(res, p.consts[s].value);
    }
    forall s | s in p.statics && p.statics[s].Some?
      ensures Clean(res, Replace(res, p.statics[s].value))
    {
      NothingLeft(res, p.statics[s].value);
    }
    forall s | s in p.fns && p.fns[s].body.Some?
      ensures CleanBlock(res, ReplaceBlock(res, p.fns[s].body.value))
    {
      NothingLeftBlock(res, p.fns[s].body.value);
    }
  }

  /******* Nothing else changes *******/

  // Where nothing is due nothing is rewritten; so a second pass does nothing.
  lemma {:induction false} CleanIsKept(res: Result, e: Expr)
    requires Clean(res, e)
    ensures Replace(res, e) == e
    decreases e
  {
    hide Decimal, Due;
    match e
    case Path(_, _, _) => PathBecomesLiteral(res, e);
    case Unary(_, x) => CleanIsKept(res, x);
    case Binary(_, l, r) =>
      CleanIsKept(res, l);
      CleanIsKept(res, r);
    case Cast(x, _) => CleanIsKept(res, x);
    case Tuple(args, _) =>
      forall i | 0 <= i < |args|
        ensures Replace(res, args[i]) == args[i]
      {
        CleanIsKept(res, args[i]);
      }
    case Field(x, _) => CleanIsKept(res, x);
    case If(c, b, els) =>
      CleanIsKept(res, c);
      CleanBlockIsKept(res, b);
      if els.Some? {
        CleanIsKept(res, els.value);
      }
    case BlockExpr(b) => CleanBlockIsKept(res, b);
    case Call(callee, args) =>
      CleanIsKept(res, callee);
      forall i | 0 <= i < |args|
        ensures Replace(res, args[i]) == args[i]
      {
        CleanIsKept(res, args[i]);
      }
    case Match(s, arms) =>
      CleanIsKept(res, s);
      forall i | 0 <= i < |arms|
        ensures ReplaceArm(res, arms[i]) == arms[i]
      {
        assert CleanArm(res, arms[i]);
        if arms[i].guard.Some? {
          CleanIsKept(res, arms[i].guard.value);
        }
        CleanBlockIsKept(res, arms[i].body);
      }
    case Loop(b) => CleanBlockIsKept(res, b);
    case While(c, b) =>
      CleanIsKept(res, c);
      CleanBlockIsKept(res, b);
    case _ =>
  }

  lemma {:induction false} CleanBlockIsKept(res: Result, b: Block)
    requires CleanBlock(res, b)
    ensures ReplaceBlock(res, b) == b
    decreases b
  {
    hide Replace, Clean;
    if b.trailing.Some? {
      CleanIsKept(res, b.trailing.value);
    }
    forall i | 0 <= i < |b.stmts|
      ensures ReplaceStmt(res, b.stmts[i]) == b.stmts[i]
    {
      assert CleanStmt(res, b.stmts[i]);
      CleanStmtIsKept(res, b.stmts[i]);
    }
  }

  lemma {:induction false} CleanStmtIsKept(res: Result, s: Stmt)
    requires CleanStmt(res, s)
    ensures ReplaceStmt(res, s) == s
    decreases s
  {
    hide Replace, Clean;
    match s
    case Let(_, init) =>
      if init.Some? {
        CleanIsKept(res, init.value);
      }
    case Var(_, value) => CleanIsKept(res, value);
    case Return(r) =>
      if r.Some? {
        CleanIsKept(res, r.value);
      }
    case Break(r) =>
      if r.Some? {
        CleanIsKept(res, r.value);
      }
    case ExprStmt(x) => CleanIsKept(res, x);
    case _ =>
  }

  lemma SecondPassDoesNothing(res: Result, e: Expr)
    ensures Replace(res, Replace(res, e)) == Replace(res, e)
  {
    NothingLeft(res, e);
    CleanIsKept(res, Replace(res, e));
  }
}
