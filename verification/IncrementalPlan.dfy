// Which passes must run again after a change, and that running only those over
// cached outputs gives what a full rebuild gives.
module IncrementalPlan {
  import opened PassGraph
  import opened PassManifest

  /******* What must run again *******/

  // n is a dirty name or reads, through any number of passes, from one.
  ghost predicate Tainted(g: Graph, dirty: set<string>, n: string) {
    exists path :: TaintPath(g, dirty, path) && path[|path| - 1] == n
  }

  ghost predicate TaintPath(g: Graph, dirty: set<string>, path: seq<string>) {
    path != [] && path[0] in dirty && forall i :: 0 <= i < |path| - 1 ==> Reads(g, path[i + 1], path[i])
  }

  // One step: dirty itself, or some input tainted.
  lemma TaintedStep(g: Graph, dirty: set<string>, n: string)
    requires n in g
    ensures Tainted(g, dirty, n) <==> n in dirty || exists i :: 0 <= i < |g[n]| && Tainted(g, dirty, g[n][i])
  {
    if n in dirty {
      assert TaintPath(g, dirty, [n]) && [n][|[n]| - 1] == n;
    }
    if i :| 0 <= i < |g[n]| && Tainted(g, dirty, g[n][i]) {
      TaintedNext(g, dirty, g[n][i], n);
    }
    if Tainted(g, dirty, n) && n !in dirty {
      TaintedBefore(g, dirty, n);
    }
  }

  lemma TaintedNext(g: Graph, dirty: set<string>, m: string, n: string)
    requires Tainted(g, dirty, m) && Reads(g, n, m)
    ensures Tainted(g, dirty, n)
  {
    var path :| TaintPath(g, dirty, path) && path[|path| - 1] == m;
    var more := path + [n];
    forall i | 0 <= i < |more| - 1
      ensures Reads(g, more[i + 1], more[i])
    {
      if i < |path| - 1 {
        assert Reads(g, path[i + 1], path[i]);
      }
    }
    assert TaintPath(g, dirty, more) && more[|more| - 1] == n;
  }

  lemma TaintedBefore(g: Graph, dirty: set<string>, n: string)
    requires Tainted(g, dirty, n) && n !in dirty && n in g
    ensures exists i :: 0 <= i < |g[n]| && Tainted(g, dirty, g[n][i])
  {
    var path :| TaintPath(g, dirty, path) && path[|path| - 1] == n;
    var k := |path| - 2;
    assert Reads(g, path[k + 1], path[k]);
    var front := path[..k + 1];
    forall i | 0 <= i < |front| - 1
      ensures Reads(g, front[i + 1], front[i])
    {
      assert Reads(g, path[i + 1], path[i]);
    }
    assert TaintPath(g, dirty, front) && front[|front| - 1] == path[k];
    var i :| 0 <= i < |g[n]| && g[n][i] == path[k];
  }

  datatype Plan = Plan(rerun: seq<string>, reuse: seq<string>)

  // Both lists are sorted by name; together they hold every pass once.
  ghost predicate RightPlan(g: Graph, dirty: set<string>, plan: Plan) {
    && SortedNames(plan.rerun) && SortedNames(plan.reuse) && Distinct(plan.rerun) && Distinct(plan.reuse)
    && (forall n :: n in plan.rerun <==> n in g && Tainted(g, dirty, n))
    && (forall n :: n in plan.reuse <==> n in g && !Tainted(g, dirty, n))
  }

  // None where the source panics: the manifest was never validated.
  method MakePlan(m: Manifest, dirty: set<string>) returns (plan: Option<Plan>)
    requires m.Valid()
    ensures plan.Some? <==> m.built
    ensures plan.Some? ==> RightPlan(m.byName, dirty, plan.value)
  {
    if !m.built {
      return None;
    }
    var again := RerunSet(m.byName, m.order, dirty);
    var rerun, reuse := Split(m.order, again);
    hide Tainted;
    SortSorts(rerun);
    SortSorts(reuse);
    SortedReady(rerun);
    SortedReady(reuse);
    SameMembers(Sort(rerun), rerun);
    SameMembers(Sort(reuse), reuse);
    return Some(Plan(Sort(rerun), Sort(reuse)));
  }

  // One walk over the order, passing dirt on to readers.
  method RerunSet(g: Graph, order: seq<string>, dirty: set<string>) returns (again: set<string>)
    requires Topological(g, order)
    ensures forall n :: n in again <==> n in order && Tainted(g, dirty, n)
  {
    hide Tainted;
    again := {};
    var i := 0;
    while i < |order|
      invariant 0 <= i <= |order|
      invariant forall n :: n in again <==> n in order[..i] && Tainted(g, dirty, n)
    {
      var name := order[i];
      assert InputsIn(g, name, order[..i]);
      assert order[..i + 1] == order[..i] + [name];
      var hit := AnyDirty(g[name], dirty, again);
      TaintedStep(g, dirty, name);
      InputsTainted(g, name, dirty, order[..i], again);
      if name in dirty {
        hit := true;
      }
      if hit {
        again := again + {name};
      }
      i := i + 1;
    }
    assert order[..|order|] == order;
  }

  method AnyDirty(inputs: seq<string>, dirty: set<string>, again: set<string>) returns (hit: bool)
    ensures hit <==> exists i :: 0 <= i < |inputs| && (inputs[i] in dirty || inputs[i] in again)
  {
    var i := 0;
    while i < |inputs|
      invariant 0 <= i <= |inputs| && forall k :: 0 <= k < i ==> inputs[k] !in dirty && inputs[k] !in again
    {
      if inputs[i] in dirty || inputs[i] in again {
        return true;
      }
      i := i + 1;
    }
    return false;
  }

  // For inputs already walked, dirty or marked is the same as tainted.
  lemma InputsTainted(g: Graph, name: string, dirty: set<string>, done: seq<string>, again: set<string>)
    requires name in g && InputsIn(g, name, done)
    requires forall n :: n in again <==> n in done && Tainted(g, dirty, n)
    ensures forall i :: 0 <= i < |g[name]| ==> (g[name][i] in dirty || g[name][i] in again <==> Tainted(g, dirty, g[name][i]))
  {
    forall i | 0 <= i < |g[name]|
      ensures g[name][i] in dirty || g[name][i] in again <==> Tainted(g, dirty, g[name][i])
    {
      var x := g[name][i];
      if x in dirty {
        assert TaintPath(g, dirty, [x]) && [x][|[x]| - 1] == x;
      }
    }
  }

  method Split(order: seq<string>, again: set<string>) returns (rerun: seq<string>, reuse: seq<string>)
    requires Distinct(order)
    ensures Distinct(rerun) && Distinct(reuse)
    ensures forall n :: n in rerun <==> n in order && n in again
    ensures forall n :: n in reuse <==> n in order && n !in again
  {
    rerun, reuse := [], [];
    var i := 0;
    while i < |order|
      invariant 0 <= i <= |order| && Distinct(rerun) && Distinct(reuse)
      invariant forall n :: n in rerun <==> n in order[..i] && n in again
      invariant forall n :: n in reuse <==> n in order[..i] && n !in again
    {
      assert order[..i + 1] == order[..i] + [order[i]];
      assert order[i] !in order[..i];
      if order[i] in again {
        rerun := rerun + [order[i]];
      } else {
        reuse := reuse + [order[i]];
      }
      i := i + 1;
    }
    assert order[..|order|] == order;
  }

  /******* Running it *******/

  function Outputs<V>(inputs: seq<string>, outs: map<string, V>): seq<V>
    requires forall i :: 0 <= i < |inputs| ==> inputs[i] in outs
  {
    seq(|inputs|, i requires 0 <= i < |inputs| => outs[inputs[i]])
  }

  // Every pass, in order. f(n, xs) is what pass n makes of its inputs' outputs.
  function FullRun<V>(g: Graph, f: (string, seq<V>) -> V, order: seq<string>): (outs: map<string, V>)
    requires Progress(g, order)
    ensures outs.Keys == Elements(order)
    decreases |order|
  {
    if order == [] then map[]
    else
      var k := |order| - 1;
      ProgressFront(g, order);
      var before := FullRun(g, f, order[..k]);
      assert Elements(order) == Elements(order[..k]) + {order[k]};
      InputsThere(g, order);
      before[order[k] := f(order[k], Outputs(g[order[k]], before))]
  }

  // Only the passes to rerun; the others come from the cache.
  function PartialRun<V>(g: Graph, f: (string, seq<V>) -> V, order: seq<string>, rerun: seq<string>, cache: map<string, V>)
    : (outs: map<string, V>)
    requires Progress(g, order) && forall n :: n in order && n !in rerun ==> n in cache
    ensures outs.Keys == Elements(order)
    decreases |order|
  {
    if order == [] then map[]
    else
      var k := |order| - 1;
      ProgressFront(g, order);
      var before := PartialRun(g, f, order[..k], rerun, cache);
      assert Elements(order) == Elements(order[..k]) + {order[k]};
      InputsThere(g, order);
      before[order[k] := if order[k] in rerun then f(order[k], Outputs(g[order[k]], before)) else cache[order[k]]]
  }

  lemma ProgressFront(g: Graph, order: seq<string>)
    requires Progress(g, order) && order != []
    ensures Progress(g, order[..|order| - 1])
  {
    var front := order[..|order| - 1];
    forall k | 0 <= k < |front|
      ensures front[k] in g && InputsIn(g, front[k], front[..k])
    {
      assert front[..k] == order[..k];
    }
  }

  lemma InputsThere(g: Graph, order: seq<string>)
    requires Progress(g, order) && order != []
    ensures var n := order[|order| - 1]; n in g && forall i :: 0 <= i < |g[n]| ==> g[n][i] in Elements(order[..|order| - 1])
  {
  }

  // Outputs once computed stay.
  lemma {:induction false} RunPrefix<V>(g: Graph, f: (string, seq<V>) -> V, order: seq<string>, k: nat)
    requires Progress(g, order) && k <= |order| && Progress(g, order[..k])
    ensures forall n :: n in order[..k] ==>
      n in FullRun(g, f, order[..k]) && n in FullRun(g, f, order) && FullRun(g, f, order[..k])[n] == FullRun(g, f, order)[n]
    decreases |order|
  {
    if k == |order| {
      assert order[..k] == order;
      assert forall n :: n in order ==> n in Elements(order);
    } else {
      var front := order[..|order| - 1];
      ProgressFront(g, order);
      assert front[..k] == order[..k];
      RunPrefix(g, f, front, k);
      forall n | n in order[..k]
        ensures n in FullRun(g, f, order) && FullRun(g, f, order)[n] == FullRun(g, f, front)[n]
      {
        var i :| 0 <= i < k && order[i] == n;
        assert n in Elements(order) && n != order[|order| - 1];
      }
    }
  }

  // The two behaviours agree on every pass that is not dirty.
  ghost predicate SameUnlessDirty<V(!new)>(g: Graph, dirty: set<string>, f: (string, seq<V>) -> V, f2: (string, seq<V>) -> V) {
    forall n, xs :: n in g && n !in dirty ==> f2(n, xs) == f(n, xs)
  }

  lemma {:induction false} UntaintedSame<V(!new)>(
    g: Graph, dirty: set<string>, f: (string, seq<V>) -> V, f2: (string, seq<V>) -> V, order: seq<string>)
    requires Progress(g, order) && SameUnlessDirty(g, dirty, f, f2)
    ensures forall n :: n in order && !Tainted(g, dirty, n) ==>
      n in FullRun(g, f, order) && n in FullRun(g, f2, order) && FullRun(g, f2, order)[n] == FullRun(g, f, order)[n]
    decreases |order|
  {
    hide *;
    if order != [] {
      var k := |order| - 1;
      var n := order[k];
      ProgressFront(g, order);
      UntaintedSame(g, dirty, f, f2, order[..k]);
      var a, b := FullRun(g, f, order[..k]), FullRun(g, f2, order[..k]);
      RunStep(g, f, order);
      RunStep(g, f2, order);
      if !Tainted(g, dirty, n) {
        TaintedStep(g, dirty, n);
        SameOutputs(g, n, a, b);
        SameBehaviour(g, dirty, f, f2, n, Outputs(g[n], a));
      }
      assert order == order[..k] + [n];
    }
  }

  lemma RunStep<V>(g: Graph, f: (string, seq<V>) -> V, order: seq<string>)
    requires Progress(g, order) && order != [] && Progress(g, order[..|order| - 1])
    ensures var n := order[|order| - 1]; var before := FullRun(g, f, order[..|order| - 1]);
      && n in g && n !in order[..|order| - 1]
      && (forall i :: 0 <= i < |g[n]| ==> g[n][i] in before && g[n][i] in order[..|order| - 1])
      && FullRun(g, f, order) == before[n := f(n, Outputs(g[n], before))]
  {
    InputsThere(g, order);
  }

  lemma SameOutputs<V>(g: Graph, n: string, a: map<string, V>, b: map<string, V>)
    requires n in g && forall i :: 0 <= i < |g[n]| ==> g[n][i] in a && g[n][i] in b && a[g[n][i]] == b[g[n][i]]
    ensures Outputs(g[n], a) == Outputs(g[n], b)
  {
  }

  lemma SameBehaviour<V(!new)>(g: Graph, dirty: set<string>, f: (string, seq<V>) -> V, f2: (string, seq<V>) -> V, n: string, xs: seq<V>)
    requires SameUnlessDirty(g, dirty, f, f2) && n in g && n !in dirty
    ensures f2(n, xs) == f(n, xs)
  {
  }

  lemma {:induction false} PartialSame<V(!new)>(
    g: Graph, dirty: set<string>, plan: Plan, f: (string, seq<V>) -> V, f2: (string, seq<V>) -> V,
    order: seq<string>, k: nat, cache: map<string, V>)
    requires Topological(g, order) && k <= |order| && Progress(g, order[..k])
    requires RightPlan(g, dirty, plan) && SameUnlessDirty(g, dirty, f, f2) && cache == FullRun(g, f, order)
    requires forall n :: n in order[..k] && n !in plan.rerun ==> n in cache
    ensures PartialRun(g, f2, order[..k], plan.rerun, cache) == FullRun(g, f2, order[..k])
    decreases k
  {
    hide *;
    var part := order[..k];
    if k == 0 {
      NoRun(g, f2, plan.rerun, cache);
    } else {
      var n := part[k - 1];
      assert part[..k - 1] == order[..k - 1];
      ProgressFront(g, part);
      PartialSame(g, dirty, plan, f, f2, order, k - 1, cache);
      LastStep(g, f2, part, plan.rerun, cache);
      if n !in plan.rerun {
        CachedSame(g, dirty, plan, f, f2, order, k - 1);
        assert n in part;
        TopologicalProgress(g, order);
        RunPrefix(g, f2, order, k);
      }
    }
  }

  lemma NoRun<V>(g: Graph, f: (string, seq<V>) -> V, rerun: seq<string>, cache: map<string, V>)
    ensures Progress(g, []) && PartialRun(g, f, [], rerun, cache) == FullRun(g, f, [])
  {
  }

  // If the runs agree up to the last pass, they agree if the last pass reruns
  // or its cached output is the new one.
  lemma LastStep<V>(g: Graph, f: (string, seq<V>) -> V, order: seq<string>, rerun: seq<string>, cache: map<string, V>)
    requires Progress(g, order) && order != [] && Progress(g, order[..|order| - 1])
    requires forall n :: n in order && n !in rerun ==> n in cache
    requires PartialRun(g, f, order[..|order| - 1], rerun, cache) == FullRun(g, f, order[..|order| - 1])
    ensures var n := order[|order| - 1];
      && n in FullRun(g, f, order)
      && (n in rerun || cache[n] == FullRun(g, f, order)[n] ==> PartialRun(g, f, order, rerun, cache) == FullRun(g, f, order))
  {
    InputsThere(g, order);
    assert order[|order| - 1] in Elements(order);
  }

  // What is not rerun has not changed.
  lemma CachedSame<V(!new)>(
    g: Graph, dirty: set<string>, plan: Plan, f: (string, seq<V>) -> V, f2: (string, seq<V>) -> V, order: seq<string>, k: nat)
    requires Topological(g, order) && k < |order| && RightPlan(g, dirty, plan) && SameUnlessDirty(g, dirty, f, f2)
    requires order[k] !in plan.rerun
    ensures var n := order[k]; n in FullRun(g, f, order) && n in FullRun(g, f2, order) && FullRun(g, f2, order)[n] == FullRun(g, f, order)[n]
  {
    hide Tainted, SortedNames, FullRun, SameUnlessDirty;
    UntaintedSame(g, dirty, f, f2, order);
  }

  // Rerunning only the planned passes over the previous outputs gives exactly
  // the outputs of running every pass.
  lemma IncrementalEqualsFull<V(!new)>(
    g: Graph, order: seq<string>, dirty: set<string>, plan: Plan, f: (string, seq<V>) -> V, f2: (string, seq<V>) -> V)
    requires Topological(g, order) && RightPlan(g, dirty, plan) && SameUnlessDirty(g, dirty, f, f2)
    ensures forall n :: n in order ==> n in FullRun(g, f, order)
    ensures PartialRun(g, f2, order, plan.rerun, FullRun(g, f, order)) == FullRun(g, f2, order)
  {
    assert order[..|order|] == order;
    assert forall n :: n in order ==> n in Elements(order);
    PartialSame(g, dirty, plan, f, f2, order, |order|, FullRun(g, f, order));
  }
}
