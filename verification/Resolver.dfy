// The resolver as it runs: the maps, the visiting marks and the stack are
// updated in place, and the methods are proved to do what Walk says.
module Resolver {
  import opened Versions
  import opened Resolution
  import opened RootOrder
  import opened JointRoots

  lemma TightenedCases(s: State, name: string, r: Range)
    ensures Tightened(s, name, r) == if name in s.constraints then Intersect(s.constraints[name], r) else Some(r)
  {
  }

  class Resolver {
    const reg: Registry
    var constraints: map<string, Range>
    var selected: map<string, Version>
    var visiting: set<string>
    var stack: seq<string>
    ghost var finished: seq<string>

    constructor (reg: Registry, roots: map<string, Range>)
      ensures this.reg == reg && Valid() && Now() == Start(roots)
    {
      this.reg := reg;
      constraints, selected, visiting, stack, finished := roots, map[], {}, [], [];
    }

    ghost predicate Valid()
      reads this
    {
      forall n :: n in visiting <==> n in stack
    }

    ghost function Now(): State
      reads this
    {
      State(constraints, selected, stack, finished)
    }

    method Visit(name: string, r: Range) returns (err: Option<Error>)
      requires Valid()
      modifies this
      ensures Valid() && stack == old(stack)
      ensures match Walk(reg, old(Now()), name, r)
        case Done(s) => err == None && Now() == s
        case Failed(e) => err == Some(e)
      decreases |Free(reg, Now())|, 0, 0
    {
      hide WalkAll, Intersect, SelectLatest, AvailableVersions, Dependencies, Contains, Free, ReleaseDeps, Tightened;
      ghost var start := Now();
      if name in visiting {
        return Some(Cycle(stack + [name]));
      }
      var joined := r;
      TightenedCases(start, name, r);
      if name in constraints {
        var j := Intersect(constraints[name], r);
        if j.None? {
          return Some(NoMatch(name));
        }
        joined := j.value;
      }
      constraints := constraints[name := joined];
      if name in selected {
        if !Contains(joined, selected[name]) {
          return Some(NoMatch(name));
        }
        return None;
      }
      var avail := AvailableVersions(reg, name);
      if avail == [] {
        return Some(Unknown(name));
      }
      var chosen, ok := SelectLatestOf(joined, avail);
      if !ok {
        return Some(NoMatch(name));
      }
      selected := selected[name := chosen];
      visiting := visiting + {name};
      stack := stack + [name];
      assert Now() == Enter(start, name, joined, chosen);
      FreeShrinks(reg, start, Now());
      InReg(reg, name);
      err := VisitAll(Dependencies(reg, name, chosen));
      assert stack == old(stack) + [name] && stack[..|stack| - 1] == old(stack);
      assert name !in old(stack);
      visiting := visiting - {name};
      stack := stack[..|stack| - 1];
      finished := finished + [name];
    }

    method VisitAll(deps: seq<Dep>) returns (err: Option<Error>)
      requires Valid()
      modifies this
      ensures Valid() && stack == old(stack)
      ensures match WalkAll(reg, old(Now()), deps, 0)
        case Done(s) => err == None && Now() == s
        case Failed(e) => err == Some(e)
      decreases |Free(reg, Now())|, 1
    {
      hide Walk;
      var i := 0;
      while i < |deps|
        invariant Valid() && stack == old(stack) && i <= |deps|
        invariant WalkAll(reg, old(Now()), deps, 0) == WalkAll(reg, Now(), deps, i)
        invariant |Free(reg, Now())| <= |Free(reg, old(Now()))|
      {
        ghost var s := Now();
        err := Visit(deps[i].name, deps[i].range);
        if err.Some? {
          return;
        }
        FreeShrinks(reg, s, Now());
        i := i + 1;
      }
      return None;
    }
  }

  // The selected versions, or why there are none. `order` is the order in
  // which the root constraints happen to be visited.
  method ResolveAll(reg: Registry, roots: map<string, Range>, order: seq<string>)
    returns (selected: map<string, Version>, err: Option<Error>)
    requires Covers(roots, order)
    ensures err.None? ==> Consistent(reg, roots, selected)
    ensures err.None? ==> forall n :: n in selected ==> Reached(reg, roots, selected, n)
    ensures err.None? ==> exists ranks :: Ordered(reg, selected, ranks)
    ensures err.None? ==> Best(reg, roots, selected)
    ensures LatestFits(reg, roots) ==> (err.None? <==> !Broken(reg, roots))
    ensures LatestFits(reg, roots) && err.None? ==> LatestReached(reg, roots, selected)
    ensures forall u :: UnionOf(reg, roots, u) && Consistent(reg, roots, u) ==> err.None? && selected == u
    ensures err.Some? ==> Genuine(reg, roots, err.value)
  {
    hide UnionOf, Best, LatestFits, Broken, LatestReached, Consistent, Reached, Genuine;
    var r := new Resolver(reg, roots);
    err := r.VisitAll(RootDeps(roots, order));
    selected := r.selected;
    forall u | UnionOf(reg, roots, u) && Consistent(reg, roots, u)
      ensures err.None? && selected == u
    {
      JointResolves(reg, roots, u, order);
    }
    if LatestFits(reg, roots) {
      LatestResolves(reg, roots, order);
    }
    if err.None? {
      ResolveSound(reg, roots, order);
      SelectsTheBest(reg, roots, order);
      assert Ordered(reg, selected, r.finished);
    } else {
      ErrorsAreGenuine(reg, roots, order);
    }
  }
}
