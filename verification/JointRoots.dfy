// Exactly when every order of the roots resolves to the same versions.
module JointRoots {
  import opened Versions
  import opened Resolution
  import opened RootOrder

  // The order in which a map is iterated: every root once.
  predicate Iteration(roots: map<string, Range>, order: seq<string>) {
    Covers(roots, order) && forall i, j :: 0 <= i < j < |order| ==> order[i] != order[j]
  }

  // Every iteration order resolves, to the versions in `selected`.
  ghost predicate OneResolution(reg: Registry, roots: map<string, Range>, selected: map<string, Version>) {
    forall order :: Iteration(roots, order) ==>
      Resolve(reg, roots, order).Done? && Resolve(reg, roots, order).state.selected == selected
  }

  // Root x walked alone.
  function Alone(reg: Registry, roots: map<string, Range>, x: string): Outcome
    requires x in roots
  {
    Walk(reg, Start(roots), x, roots[x])
  }

  predicate SelectsIn(reg: Registry, roots: map<string, Range>, x: string, u: map<string, Version>) {
    x in roots && Alone(reg, roots, x).Done? && PartOf(Alone(reg, roots, x).state.selected, u)
  }

  predicate SelectedAlone(reg: Registry, roots: map<string, Range>, x: string, n: string) {
    x in roots && Alone(reg, roots, x).Done? && n in Alone(reg, roots, x).state.selected
  }

  // Each root resolves alone, these selections agree where they share a
  // package, and u holds them all and nothing else.
  ghost predicate UnionOf(reg: Registry, roots: map<string, Range>, u: map<string, Version>) {
    && (forall x :: x in roots ==> SelectsIn(reg, roots, x, u))
    && (forall n :: n in u ==> exists x :: SelectedAlone(reg, roots, x, n))
  }

  /******* What a walk does to any state *******/

  lemma {:induction false} WalkExtends(reg: Registry, s: State, name: string, r: Range)
    requires Walk(reg, s, name, r).Done?
    ensures PartOf(s.selected, Walk(reg, s, name, r).state.selected)
    ensures name in Walk(reg, s, name, r).state.selected
    decreases |Free(reg, s)|, 0, 0
  {
    hide WalkAll, AvailableVersions, Dependencies, SelectLatest, Tightened, Contains;
    if name !in s.selected {
      var joined := Tightened(s, name, r).value;
      var v := SelectLatest(joined, AvailableVersions(reg, name)).value;
      var t := Enter(s, name, joined, v);
      FreeShrinks(reg, s, t);
      InReg(reg, name);
      WalkAllExtends(reg, t, Dependencies(reg, name, v), 0);
    }
  }

  lemma {:induction false} WalkAllExtends(reg: Registry, s: State, deps: seq<Dep>, i: nat)
    requires i <= |deps| && WalkAll(reg, s, deps, i).Done?
    ensures PartOf(s.selected, WalkAll(reg, s, deps, i).state.selected)
    decreases |Free(reg, s)|, 1, |deps| - i
  {
    hide *;
    WalkAllUnfold(reg, s, deps, i);
    if i == |deps| {
      PartOfTrans(s.selected, s.selected, s.selected);
    } else {
      WalkExtends(reg, s, deps[i].name, deps[i].range);
      var t := Walk(reg, s, deps[i].name, deps[i].range).state;
      FreeShrinks(reg, s, t);
      WalkAllExtends(reg, t, deps, i + 1);
      PartOfTrans(s.selected, t.selected, WalkAll(reg, t, deps, i + 1).state.selected);
    }
  }

  lemma PartOfTrans(a: map<string, Version>, b: map<string, Version>, c: map<string, Version>)
    ensures PartOf(a, a)
    ensures PartOf(a, b) && PartOf(b, c) ==> PartOf(a, c)
  {
  }

  // A package that is not selected has only the manifest's constraint.
  predicate Fresh(roots: map<string, Range>, s: State) {
    && (forall n :: n in s.constraints && n !in s.selected ==> n in roots && s.constraints[n] == roots[n])
    && (forall n :: n in roots ==> n in s.constraints)
  }

  lemma {:induction false} WalkFresh(reg: Registry, roots: map<string, Range>, s: State, name: string, r: Range)
    requires Fresh(roots, s) && Walk(reg, s, name, r).Done?
    ensures Fresh(roots, Walk(reg, s, name, r).state)
    decreases |Free(reg, s)|, 0, 0
  {
    hide WalkAll, AvailableVersions, Dependencies, SelectLatest, Tightened, Contains, Fresh;
    var joined := Tightened(s, name, r).value;
    FreshSteps(roots, s, name, joined);
    if name !in s.selected {
      var v := SelectLatest(joined, AvailableVersions(reg, name)).value;
      var t := Enter(s, name, joined, v);
      FreeShrinks(reg, s, t);
      InReg(reg, name);
      WalkAllFresh(reg, roots, t, Dependencies(reg, name, v), 0);
      FreshLeaves(roots, WalkAll(reg, t, Dependencies(reg, name, v), 0).state);
    }
  }

  lemma FreshSteps(roots: map<string, Range>, s: State, n: string, joined: Range)
    requires Fresh(roots, s)
    ensures n in s.selected ==> Fresh(roots, s.(constraints := s.constraints[n := joined]))
    ensures forall v :: Fresh(roots, Enter(s, n, joined, v))
  {
  }

  lemma FreshLeaves(roots: map<string, Range>, s: State)
    requires Fresh(roots, s) && s.stack != []
    ensures Fresh(roots, Leave(s))
  {
  }

  lemma {:induction false} WalkAllFresh(reg: Registry, roots: map<string, Range>, s: State, deps: seq<Dep>, i: nat)
    requires Fresh(roots, s) && i <= |deps| && WalkAll(reg, s, deps, i).Done?
    ensures Fresh(roots, WalkAll(reg, s, deps, i).state)
    decreases |Free(reg, s)|, 1, |deps| - i
  {
    hide *;
    WalkAllUnfold(reg, s, deps, i);
    if i < |deps| {
      WalkFresh(reg, roots, s, deps[i].name, deps[i].range);
      var t := Walk(reg, s, deps[i].name, deps[i].range).state;
      FreeShrinks(reg, s, t);
      WalkAllFresh(reg, roots, t, deps, i + 1);
    }
  }

  // b holds the dependencies of what it holds, at the versions of u.
  ghost predicate Closed(reg: Registry, u: map<string, Version>, b: set<string>) {
    && b <= u.Keys
    && forall n, d :: n in b && Edge(reg, u, n, d) ==> d.name in b
  }

  // A walk that begins in a closed set selects nothing outside it.
  lemma {:induction false} WalkInside(reg: Registry, u: map<string, Version>, b: set<string>, a: State, name: string, r: Range)
    requires Closed(reg, u, b) && name in b
    requires Walk(reg, a, name, r).Done? && PartOf(Walk(reg, a, name, r).state.selected, u)
    ensures Walk(reg, a, name, r).state.selected.Keys <= a.selected.Keys + b
    decreases |Free(reg, a)|, 0, 0
  {
    hide WalkAll, AvailableVersions, Dependencies, SelectLatest, Tightened, Contains;
    if name !in a.selected {
      var joined := Tightened(a, name, r).value;
      var v := SelectLatest(joined, AvailableVersions(reg, name)).value;
      var t := Enter(a, name, joined, v);
      FreeShrinks(reg, a, t);
      InReg(reg, name);
      var deps := Dependencies(reg, name, v);
      WalkAllExtends(reg, t, deps, 0);
      assert u[name] == v;
      assert forall j :: 0 <= j < |deps| ==> Edge(reg, u, name, deps[j]);
      WalkAllInside(reg, u, b, t, deps, 0);
    }
  }

  lemma {:induction false} WalkAllInside(reg: Registry, u: map<string, Version>, b: set<string>, a: State, deps: seq<Dep>, i: nat)
    requires Closed(reg, u, b) && i <= |deps| && forall j :: 0 <= j < |deps| ==> deps[j].name in b
    requires WalkAll(reg, a, deps, i).Done? && PartOf(WalkAll(reg, a, deps, i).state.selected, u)
    ensures WalkAll(reg, a, deps, i).state.selected.Keys <= a.selected.Keys + b
    decreases |Free(reg, a)|, 1, |deps| - i
  {
    hide *;
    WalkAllUnfold(reg, a, deps, i);
    if i < |deps| {
      var t := Walk(reg, a, deps[i].name, deps[i].range).state;
      FreeShrinks(reg, a, t);
      WalkAllExtends(reg, t, deps, i + 1);
      PartOfTrans(t.selected, WalkAll(reg, t, deps, i + 1).state.selected, u);
      WalkInside(reg, u, b, a, deps[i].name, deps[i].range);
      WalkAllInside(reg, u, b, t, deps, i + 1);
    }
  }

  /******* A walk from Start and the same walk later on *******/

  predicate Admits(u: map<string, Version>, n: string, r: Range) {
    n in u ==> Contains(r, u[n])
  }

  // a is where a root walked alone stands, s where the same root stands when
  // the packages b were selected before; both select versions of u.
  ghost predicate Alike(roots: map<string, Range>, u: map<string, Version>, b: set<string>, a: State, s: State) {
    && Fresh(roots, a) && Fresh(roots, s)
    && s.stack == a.stack && (forall n :: n in a.stack ==> n in a.selected)
    && PartOf(a.selected, u) && PartOf(s.selected, u)
    && s.selected.Keys == a.selected.Keys + b
    && (forall n :: n in s.constraints ==> Admits(u, n, s.constraints[n]))
  }

  lemma TightenAllows(u: map<string, Version>, s: State, n: string, r: Range)
    requires n in u && Admits(u, n, r) && (n in s.constraints ==> Admits(u, n, s.constraints[n]))
    ensures Tightened(s, n, r).Some? && Contains(Tightened(s, n, r).value, u[n])
  {
    hide Contains, Intersect;
    if n in s.constraints {
      IntersectIsExact(s.constraints[n], r);
    }
  }

  // A package selected for the first time has the same constraint in both.
  lemma SameFirst(roots: map<string, Range>, a: State, s: State, n: string, r: Range)
    requires Fresh(roots, a) && Fresh(roots, s) && n !in a.selected && n !in s.selected
    ensures Tightened(a, n, r) == Tightened(s, n, r)
  {
  }

  lemma {:induction false} WalkAlike(reg: Registry, roots: map<string, Range>, u: map<string, Version>, b: set<string>,
                                     a: State, s: State, name: string, r: Range)
    requires Consistent(reg, roots, u) && Closed(reg, u, b) && Alike(roots, u, b, a, s) && Admits(u, name, r)
    requires Walk(reg, a, name, r).Done? && PartOf(Walk(reg, a, name, r).state.selected, u)
    ensures Walk(reg, s, name, r).Done?
    ensures Alike(roots, u, b, Walk(reg, a, name, r).state, Walk(reg, s, name, r).state)
    decreases |Free(reg, a)|, 0, 0
  {
    hide *;
    AlikeFacts(roots, u, b, a, s, name);
    WalkExtends(reg, a, name, r);
    InPart(Walk(reg, a, name, r).state.selected, u, name);
    TightenAllows(u, s, name, r);
    if name in s.selected {
      WalkRevisits(reg, roots, u, b, a, s, name, r);
    } else {
      SameFirst(roots, a, s, name, r);
      var joined := Tightened(s, name, r).value;
      WalkFirst(reg, a, name, r);
      var v := SelectLatest(joined, AvailableVersions(reg, name)).value;
      var t, t2 := Enter(a, name, joined, v), Enter(s, name, joined, v);
      var deps := Dependencies(reg, name, v);
      LatestIsLargest(joined, AvailableVersions(reg, name));
      EnterShrinks(reg, a, name, joined, v);
      WalkAllExtends(reg, t, deps, 0);
      LeaveSelects(WalkAll(reg, t, deps, 0).state);
      InPart(t.selected, WalkAll(reg, t, deps, 0).state.selected, name);
      InPart(WalkAll(reg, t, deps, 0).state.selected, u, name);
      EnterAlike(roots, u, b, a, s, name, joined, v);
      DepsAllow(reg, roots, u, name);
      WalkAllAlike(reg, roots, u, b, t, t2, deps, 0);
      WalkEnters(reg, s, name, r);
      LeaveAlike(roots, u, b, WalkAll(reg, t, deps, 0).state, WalkAll(reg, t2, deps, 0).state);
    }
  }

  lemma AlikeFacts(roots: map<string, Range>, u: map<string, Version>, b: set<string>, a: State, s: State, n: string)
    requires Alike(roots, u, b, a, s)
    ensures Fresh(roots, a) && Fresh(roots, s) && s.stack == a.stack
    ensures n !in s.selected ==> n !in a.selected && n !in a.stack
    ensures n in s.constraints ==> Admits(u, n, s.constraints[n])
  {
    hide Admits, PartOf, Fresh;
  }

  // A walk that selects name goes through its dependencies.
  lemma WalkFirst(reg: Registry, a: State, name: string, r: Range)
    requires Walk(reg, a, name, r).Done? && name !in a.selected && Tightened(a, name, r).Some?
    ensures var joined := Tightened(a, name, r).value;
      var c := SelectLatest(joined, AvailableVersions(reg, name));
      && c.Some? && AvailableVersions(reg, name) != []
      && var o := WalkAll(reg, Enter(a, name, joined, c.value), Dependencies(reg, name, c.value), 0);
      && o.Done? && o.state.stack != [] && Walk(reg, a, name, r) == Done(Leave(o.state))
  {
    hide WalkAll, AvailableVersions, Dependencies, SelectLatest, Tightened, Contains;
  }

  lemma WalkEnters(reg: Registry, s: State, name: string, r: Range)
    requires name !in s.selected && name !in s.stack && AvailableVersions(reg, name) != [] && Tightened(s, name, r).Some?
    requires SelectLatest(Tightened(s, name, r).value, AvailableVersions(reg, name)).Some?
    requires var joined := Tightened(s, name, r).value;
      var v := SelectLatest(joined, AvailableVersions(reg, name)).value;
      WalkAll(reg, Enter(s, name, joined, v), Dependencies(reg, name, v), 0).Done?
    ensures var joined := Tightened(s, name, r).value;
      var v := SelectLatest(joined, AvailableVersions(reg, name)).value;
      Walk(reg, s, name, r) == Done(Leave(WalkAll(reg, Enter(s, name, joined, v), Dependencies(reg, name, v), 0).state))
  {
    hide WalkAll, AvailableVersions, Dependencies, SelectLatest, Tightened, Contains;
  }

  lemma EnterShrinks(reg: Registry, a: State, name: string, joined: Range, v: Version)
    requires name !in a.selected && AvailableVersions(reg, name) != []
    ensures |Free(reg, Enter(a, name, joined, v))| < |Free(reg, a)|
    ensures Enter(a, name, joined, v).stack != []
    ensures name in Enter(a, name, joined, v).selected && Enter(a, name, joined, v).selected[name] == v
  {
    FreeShrinks(reg, a, Enter(a, name, joined, v));
    InReg(reg, name);
  }

  lemma LeaveSelects(s: State)
    requires s.stack != []
    ensures Leave(s).selected == s.selected
  {
  }

  // A package selected before the root was walked, or met again, is checked
  // only; what the walk of the root alone does below it was done before.
  lemma WalkRevisits(reg: Registry, roots: map<string, Range>, u: map<string, Version>, b: set<string>,
                     a: State, s: State, name: string, r: Range)
    requires Closed(reg, u, b) && Alike(roots, u, b, a, s) && name in u && name in s.selected
    requires Walk(reg, a, name, r).Done? && PartOf(Walk(reg, a, name, r).state.selected, u)
    requires Tightened(s, name, r).Some? && Contains(Tightened(s, name, r).value, u[name])
    ensures Walk(reg, s, name, r).Done?
    ensures Alike(roots, u, b, Walk(reg, a, name, r).state, Walk(reg, s, name, r).state)
  {
    var a2 := Walk(reg, a, name, r).state;
    var joined := Tightened(s, name, r).value;
    var s2 := s.(constraints := s.constraints[name := joined]);
    WalkFresh(reg, roots, a, name, r);
    WalkExtends(reg, a, name, r);
    FreshSteps(roots, s, name, joined);
    assert a2.selected.Keys <= a.selected.Keys + b by {
      hide Walk, Contains, Closed;
      if name in a.selected {
        WalkChecks(reg, a, name, r);
      } else {
        WalkInside(reg, u, b, a, name, r);
      }
    }
    assert name !in a.stack && a2.stack == a.stack;
    assert Walk(reg, s, name, r) == Done(s2) by {
      hide WalkAll, Tightened, Contains;
    }
    hide Walk, Tightened, Contains, Fresh, Closed;
  }

  lemma WalkChecks(reg: Registry, a: State, name: string, r: Range)
    requires name in a.selected && Walk(reg, a, name, r).Done?
    ensures Walk(reg, a, name, r).state.selected == a.selected
  {
  }

  lemma EnterAlike(roots: map<string, Range>, u: map<string, Version>, b: set<string>, a: State, s: State,
                   n: string, joined: Range, v: Version)
    requires Alike(roots, u, b, a, s) && n in u && u[n] == v && Contains(joined, v)
    ensures Alike(roots, u, b, Enter(a, n, joined, v), Enter(s, n, joined, v))
  {
    hide Contains, Fresh;
    FreshSteps(roots, a, n, joined);
    FreshSteps(roots, s, n, joined);
    assert Enter(s, n, joined, v).selected.Keys == s.selected.Keys + {n};
    assert Enter(a, n, joined, v).selected.Keys == a.selected.Keys + {n};
  }

  lemma LeaveAlike(roots: map<string, Range>, u: map<string, Version>, b: set<string>, a: State, s: State)
    requires Alike(roots, u, b, a, s) && a.stack != []
    ensures Alike(roots, u, b, Leave(a), Leave(s))
  {
    hide Admits, PartOf;
  }

  lemma DepsAllow(reg: Registry, roots: map<string, Range>, u: map<string, Version>, n: string)
    requires Consistent(reg, roots, u) && n in u
    ensures var deps := Dependencies(reg, n, u[n]); forall j :: 0 <= j < |deps| ==> Admits(u, deps[j].name, deps[j].range)
  {
    hide Contains, Dependencies, AvailableVersions;
    var deps := Dependencies(reg, n, u[n]);
    forall j | 0 <= j < |deps|
      ensures Admits(u, deps[j].name, deps[j].range)
    {
      assert Edge(reg, u, n, deps[j]);
    }
  }

  lemma {:induction false} WalkAllAlike(reg: Registry, roots: map<string, Range>, u: map<string, Version>, b: set<string>,
                                        a: State, s: State, deps: seq<Dep>, i: nat)
    requires Consistent(reg, roots, u) && Closed(reg, u, b) && Alike(roots, u, b, a, s)
    requires i <= |deps| && forall j :: 0 <= j < |deps| ==> Admits(u, deps[j].name, deps[j].range)
    requires WalkAll(reg, a, deps, i).Done? && PartOf(WalkAll(reg, a, deps, i).state.selected, u)
    ensures WalkAll(reg, s, deps, i).Done?
    ensures Alike(roots, u, b, WalkAll(reg, a, deps, i).state, WalkAll(reg, s, deps, i).state)
    decreases |Free(reg, a)|, 1, |deps| - i
  {
    hide Walk, Closed, Consistent, Alike, Admits;
    WalkAllUnfold(reg, a, deps, i);
    WalkAllUnfold(reg, s, deps, i);
    if i < |deps| {
      var t := Walk(reg, a, deps[i].name, deps[i].range).state;
      FreeShrinks(reg, a, t);
      WalkAllExtends(reg, t, deps, i + 1);
      WalkAlike(reg, roots, u, b, a, s, deps[i].name, deps[i].range);
      WalkAllAlike(reg, roots, u, b, t, Walk(reg, s, deps[i].name, deps[i].range).state, deps, i + 1);
    }
  }

  /******* The roots one after another *******/

  // The selection of a root walked alone is closed.
  lemma AloneClosed(reg: Registry, roots: map<string, Range>, u: map<string, Version>, x: string)
    requires SelectsIn(reg, roots, x, u)
    ensures Closed(reg, u, Alone(reg, roots, x).state.selected.Keys)
    ensures x in Alone(reg, roots, x).state.selected && Alone(reg, roots, x).state.stack == []
  {
    var s := Alone(reg, roots, x).state;
    StartKeeps(reg, roots);
    WalkExtends(reg, Start(roots), x, roots[x]);
    WalkKeeps(reg, roots, Start(roots), x, roots[x]);
    hide Walk, Contains, Within, Chain, Reached, AvailableVersions, Dependencies;
    forall n, d | n in s.selected && Edge(reg, u, n, d)
      ensures d.name in s.selected
    {
      var k :| 0 <= k < |s.finished| && s.finished[k] == n;
      assert Settled(reg, s, k) && Recorded(s, d, k);
    }
  }

  // Some roots have been walked.
  ghost predicate Between(reg: Registry, roots: map<string, Range>, u: map<string, Version>, s: State) {
    && Fresh(roots, s) && s.stack == [] && PartOf(s.selected, u) && Closed(reg, u, s.selected.Keys)
    && forall n :: n in s.constraints ==> Admits(u, n, s.constraints[n])
  }

  lemma RootsAdmitted(reg: Registry, roots: map<string, Range>, u: map<string, Version>)
    requires Consistent(reg, roots, u)
    ensures forall n :: n in roots ==> Admits(u, n, roots[n])
    ensures Fresh(roots, Start(roots)) && Between(reg, roots, u, Start(roots))
  {
    hide Contains;
  }

  lemma UnionHas(reg: Registry, roots: map<string, Range>, u: map<string, Version>, x: string)
    requires UnionOf(reg, roots, u) && x in roots
    ensures SelectsIn(reg, roots, x, u) && Alone(reg, roots, x) == Walk(reg, Start(roots), x, roots[x])
    ensures Alone(reg, roots, x).Done? && PartOf(Alone(reg, roots, x).state.selected, u)
  {
    hide Walk, PartOf;
  }

  lemma AlikeAtStart(reg: Registry, roots: map<string, Range>, u: map<string, Version>, s: State)
    requires Between(reg, roots, u, s) && Fresh(roots, Start(roots))
    ensures Alike(roots, u, s.selected.Keys, Start(roots), s) && Closed(reg, u, s.selected.Keys)
  {
    hide Fresh, Closed, Admits;
  }

  lemma BetweenAgain(reg: Registry, roots: map<string, Range>, u: map<string, Version>, b: set<string>, a: State, s: State)
    requires Alike(roots, u, b, a, s) && a.stack == [] && Closed(reg, u, b) && Closed(reg, u, a.selected.Keys)
    ensures Between(reg, roots, u, s) && s.selected.Keys == b + a.selected.Keys
  {
    hide Fresh, Admits, PartOf, Dependencies;
  }

  lemma NextRoot(reg: Registry, roots: map<string, Range>, u: map<string, Version>, s: State, x: string)
    requires UnionOf(reg, roots, u) && Consistent(reg, roots, u) && Between(reg, roots, u, s) && x in roots
    ensures Walk(reg, s, x, roots[x]).Done? && Alone(reg, roots, x).Done?
    ensures var t := Walk(reg, s, x, roots[x]).state;
      Between(reg, roots, u, t) && t.selected.Keys == s.selected.Keys + Alone(reg, roots, x).state.selected.Keys
  {
    hide *;
    RootsAdmitted(reg, roots, u);
    UnionHas(reg, roots, u, x);
    AloneClosed(reg, roots, u, x);
    AlikeAtStart(reg, roots, u, s);
    var b := s.selected.Keys;
    WalkAlike(reg, roots, u, b, Start(roots), s, x, roots[x]);
    BetweenAgain(reg, roots, u, b, Alone(reg, roots, x).state, Walk(reg, s, x, roots[x]).state);
  }

  // n is among what the roots from the i-th on select alone.
  predicate AmongAlone(reg: Registry, roots: map<string, Range>, order: seq<string>, i: nat, n: string)
    requires i <= |order|
  {
    exists j :: i <= j < |order| && SelectedAlone(reg, roots, order[j], n)
  }

  lemma {:induction false} RootsInTurn(reg: Registry, roots: map<string, Range>, u: map<string, Version>,
                                       order: seq<string>, s: State, i: nat)
    requires UnionOf(reg, roots, u) && Consistent(reg, roots, u) && Between(reg, roots, u, s)
    requires (forall j :: 0 <= j < |order| ==> order[j] in roots) && i <= |order|
    ensures WalkAll(reg, s, RootDeps(roots, order), i).Done?
    ensures var t := WalkAll(reg, s, RootDeps(roots, order), i).state;
      && PartOf(t.selected, u)
      && forall n :: n in s.selected || AmongAlone(reg, roots, order, i, n) ==> n in t.selected
    decreases |order| - i
  {
    hide *;
    var deps := RootDeps(roots, order);
    RootDepsDef(roots, order);
    WalkAllUnfold(reg, s, deps, i);
    BetweenPart(reg, roots, u, s);
    if i < |order| {
      NextRoot(reg, roots, u, s, order[i]);
      var t := Walk(reg, s, deps[i].name, deps[i].range).state;
      RootsInTurn(reg, roots, u, order, t, i + 1);
      forall n | AmongAlone(reg, roots, order, i, n)
        ensures n in t.selected || AmongAlone(reg, roots, order, i + 1, n)
      {
        AmongStep(reg, roots, order, i, n);
      }
    } else {
      forall n
        ensures !AmongAlone(reg, roots, order, i, n)
      {
        AmongNone(reg, roots, order, n);
      }
    }
  }

  lemma RootDepsDef(roots: map<string, Range>, order: seq<string>)
    requires forall j :: 0 <= j < |order| ==> order[j] in roots
    ensures var deps := RootDeps(roots, order);
      |deps| == |order| && forall j :: 0 <= j < |order| ==> deps[j] == Dep(order[j], roots[order[j]])
  {
  }

  lemma BetweenPart(reg: Registry, roots: map<string, Range>, u: map<string, Version>, s: State)
    requires Between(reg, roots, u, s)
    ensures PartOf(s.selected, u)
  {
  }

  lemma AmongStep(reg: Registry, roots: map<string, Range>, order: seq<string>, i: nat, n: string)
    requires i < |order| && order[i] in roots && AmongAlone(reg, roots, order, i, n) && Alone(reg, roots, order[i]).Done?
    ensures n in Alone(reg, roots, order[i]).state.selected || AmongAlone(reg, roots, order, i + 1, n)
  {
    hide Alone;
  }

  lemma AmongNone(reg: Registry, roots: map<string, Range>, order: seq<string>, n: string)
    ensures !AmongAlone(reg, roots, order, |order|, n)
  {
  }

  // If u is the union of what the roots select alone, and consistent, then
  // every order of the roots resolves to u.
  lemma JointResolves(reg: Registry, roots: map<string, Range>, u: map<string, Version>, order: seq<string>)
    requires UnionOf(reg, roots, u) && Consistent(reg, roots, u) && Covers(roots, order)
    ensures Resolve(reg, roots, order).Done? && Resolve(reg, roots, order).state.selected == u
  {
    hide Consistent, WalkAll, PartOf, Between, SelectsIn, Alone;
    RootsAdmitted(reg, roots, u);
    RootsInTurn(reg, roots, u, order, Start(roots), 0);
    var selected := Resolve(reg, roots, order).state.selected;
    forall n | n in u
      ensures n in selected
    {
      var x :| SelectedAlone(reg, roots, x, n);
      var j :| 0 <= j < |order| && order[j] == x;
      assert AmongAlone(reg, roots, order, 0, n);
    }
    SamePart(selected, u);
  }

  lemma SamePart(a: map<string, Version>, b: map<string, Version>)
    requires PartOf(a, b) && forall n :: n in b ==> n in a
    ensures a == b
  {
  }

  lemma {:induction false} ListAll(xs: set<string>) returns (order: seq<string>)
    ensures forall n :: n in order <==> n in xs
    ensures forall i, j :: 0 <= i < j < |order| ==> order[i] != order[j]
    decreases |xs|
  {
    if xs == {} {
      order := [];
    } else {
      var x :| x in xs;
      var rest := ListAll(xs - {x});
      order := [x] + rest;
    }
  }

  lemma RootFirst(roots: map<string, Range>, x: string) returns (order: seq<string>)
    requires x in roots
    ensures Iteration(roots, order) && order != [] && order[0] == x
  {
    var rest := ListAll(roots.Keys - {x});
    order := [x] + rest;
    forall i | 0 <= i < |order|
      ensures order[i] in roots
    {
      assert i > 0 ==> order[i] == rest[i - 1] && rest[i - 1] in rest;
    }
    forall n | n in roots
      ensures n in order
    {
      assert n == x || n in rest;
    }
  }

  // In an order that begins with x, x is walked alone first.
  lemma FirstIsAlone(reg: Registry, roots: map<string, Range>, selected: map<string, Version>, x: string)
    requires OneResolution(reg, roots, selected) && x in roots
    ensures SelectsIn(reg, roots, x, selected)
  {
    hide Walk;
    var order := RootFirst(roots, x);
    var deps := RootDeps(roots, order);
    assert Resolve(reg, roots, order).Done?;
    WalkAllUnfold(reg, Start(roots), deps, 0);
    WalkAllExtends(reg, Walk(reg, Start(roots), deps[0].name, deps[0].range).state, deps, 1);
  }

  lemma {:induction false} ChainInside(reg: Registry, roots: map<string, Range>, u: map<string, Version>, b: set<string>,
                                       path: seq<string>, k: nat)
    requires Chain(reg, roots, u, path) && Closed(reg, u, b) && path[0] in b && k < |path|
    ensures path[k] in b
    decreases k
  {
    hide Dependencies;
    if k > 0 {
      ChainInside(reg, roots, u, b, path, k - 1);
      assert EdgeTo(reg, u, path[k - 1], path[k - 1 + 1]);
      var d :| Edge(reg, u, path[k - 1], d) && d.name == path[k];
    }
  }

  lemma ReachedAlone(reg: Registry, roots: map<string, Range>, u: map<string, Version>, n: string)
    requires (forall x :: x in roots ==> SelectsIn(reg, roots, x, u)) && Reached(reg, roots, u, n)
    ensures exists x :: SelectedAlone(reg, roots, x, n)
  {
    hide Walk, Closed, PartOf;
    var path :| Chain(reg, roots, u, path) && path[|path| - 1] == n;
    var x := path[0];
    assert SelectsIn(reg, roots, x, u);
    AloneClosed(reg, roots, u, x);
    ChainInside(reg, roots, u, Alone(reg, roots, x).state.selected.Keys, path, |path| - 1);
    assert SelectedAlone(reg, roots, x, n);
  }

  // Every iteration order resolves to u if and only if each root resolves
  // alone, u is the union of what they select, with no package selected
  // differently by two of them, and u is consistent. A caller can find out by
  // walking each root once.
  lemma OneResolutionIff(reg: Registry, roots: map<string, Range>, u: map<string, Version>)
    ensures OneResolution(reg, roots, u) <==> UnionOf(reg, roots, u) && Consistent(reg, roots, u)
  {
    hide Consistent, Reached, SelectsIn, SelectedAlone, Resolve;
    if OneResolution(reg, roots, u) {
      var order := ListAll(roots.Keys);
      AllRoots(roots, order);
      ResolveSound(reg, roots, order);
      forall x | x in roots
        ensures SelectsIn(reg, roots, x, u)
      {
        FirstIsAlone(reg, roots, u, x);
      }
      forall n | n in u
        ensures exists x :: SelectedAlone(reg, roots, x, n)
      {
        ReachedAlone(reg, roots, u, n);
      }
    }
    if UnionOf(reg, roots, u) && Consistent(reg, roots, u) {
      forall order | Iteration(roots, order)
        ensures Covers(roots, order) && Resolve(reg, roots, order).Done? && Resolve(reg, roots, order).state.selected == u
      {
        JointResolves(reg, roots, u, order);
      }
    }
  }

  // So once some order has resolved, the others resolve to the same versions
  // if and only if each root walked alone resolves to a part of them.
  lemma OrderIsIrrelevantIff(reg: Registry, roots: map<string, Range>, order: seq<string>)
    requires Iteration(roots, order) && Resolve(reg, roots, order).Done?
    ensures var u := Resolve(reg, roots, order).state.selected;
      OneResolution(reg, roots, u) <==> forall x :: x in roots ==> SelectsIn(reg, roots, x, u)
  {
    hide Consistent, Reached, SelectsIn, SelectedAlone, Resolve, OneResolution;
    var u := Resolve(reg, roots, order).state.selected;
    ResolveSound(reg, roots, order);
    OneResolutionIff(reg, roots, u);
    if forall x :: x in roots ==> SelectsIn(reg, roots, x, u) {
      forall n | n in u
        ensures exists x :: SelectedAlone(reg, roots, x, n)
      {
        ReachedAlone(reg, roots, u, n);
      }
    }
  }

  // Any two orders have the same outcome.
  ghost predicate SameOutcome(reg: Registry, roots: map<string, Range>) {
    forall o, o' :: Iteration(roots, o) && Iteration(roots, o') ==>
      && (Resolve(reg, roots, o).Done? <==> Resolve(reg, roots, o').Done?)
      && (Resolve(reg, roots, o).Done? ==> Resolve(reg, roots, o).state.selected == Resolve(reg, roots, o').state.selected)
  }

  // That is so exactly when every order fails or the roots go together.
  lemma SameOutcomeIff(reg: Registry, roots: map<string, Range>)
    ensures SameOutcome(reg, roots) <==>
      || (forall order :: Iteration(roots, order) ==> Resolve(reg, roots, order).Failed?)
      || (exists u :: UnionOf(reg, roots, u) && Consistent(reg, roots, u))
  {
    hide Resolve, UnionOf, Consistent;
    if u :| UnionOf(reg, roots, u) && Consistent(reg, roots, u) {
      OneResolutionIff(reg, roots, u);
    }
    if order :| Iteration(roots, order) && Resolve(reg, roots, order).Done? {
      var u := Resolve(reg, roots, order).state.selected;
      OneResolutionIff(reg, roots, u);
      if SameOutcome(reg, roots) {
        assert OneResolution(reg, roots, u);
      }
    }
  }

  // One root pinned below the latest release: the order cannot matter, though
  // the latest release does not fit.
  lemma PinnedRoot()
    ensures var reg, roots := TwoPackages(), map["a" := Below2];
      OneResolution(reg, roots, map["a" := V1]) && !LatestFits(reg, roots)
  {
    var reg, roots := TwoPackages(), map["a" := Below2];
    PinnedResolves(reg, roots);
    PinnedMisfit(reg, roots);
    hide OneResolution, LatestFits, Alone, Resolve, TwoPackages;
    OrderIsIrrelevantIff(reg, roots, ["a"]);
    assert forall x :: x in roots ==> x == "a";
  }

  lemma PinnedResolves(reg: Registry, roots: map<string, Range>)
    requires reg == TwoPackages() && roots == map["a" := Below2]
    ensures Iteration(roots, ["a"]) && SelectsIn(reg, roots, "a", map["a" := V1])
    ensures Resolve(reg, roots, ["a"]).Done? && Resolve(reg, roots, ["a"]).state.selected == map["a" := V1]
  {
    Facts(reg);
    assert Intersect(Below2, Below2) == Some(Below2);
    hide TwoPackages, AvailableVersions, Dependencies, SelectLatest, Intersect, Contains;
    var t := Enter(Start(roots), "a", Below2, V1);
    assert t.stack == ["a"];
    assert WalkAll(reg, t, [], 0) == Done(t);
    assert Walk(reg, Start(roots), "a", Below2) == Done(Leave(t));
    var deps := RootDeps(roots, ["a"]);
    assert deps == [Dep("a", Below2)];
    hide Walk;
    assert WalkAll(reg, Leave(t), deps, 1) == Done(Leave(t));
  }

  lemma PinnedMisfit(reg: Registry, roots: map<string, Range>)
    requires reg == TwoPackages() && roots == map["a" := Below2]
    ensures !LatestFits(reg, roots)
  {
    Facts(reg);
    InLatest(reg, "a");
    hide TwoPackages, AvailableVersions, Dependencies, SelectLatest, Intersect, LatestMap, LatestOf;
    var v := LatestMap(reg)["a"];
    assert V2 in [V2, V1] && !Newer(V2, v) && v in [V2, V1] && Newer(V2, V1);
    assert v == V2 && !Contains(Below2, v);
    assert !RootOrder.Allows(reg, "a", Below2);
    assert Wants(reg, roots, "a", Below2);
  }

  lemma AllRoots(roots: map<string, Range>, order: seq<string>)
    requires forall n :: n in order <==> n in roots.Keys
    requires forall i, j :: 0 <= i < j < |order| ==> order[i] != order[j]
    ensures Iteration(roots, order)
    ensures (forall i :: 0 <= i < |order| ==> order[i] in roots) && forall n :: n in roots ==> n in order
  {
    forall i | 0 <= i < |order|
      ensures order[i] in roots
    {
      assert order[i] in order;
    }
  }
}
