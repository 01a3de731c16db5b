// What a resolution selects, and when the order of the roots has no influence.
module RootOrder {
  import opened Versions
  import opened Resolution

  /******* Each choice is the largest that its demands allow *******/

  predicate NoneLarger(reg: Registry, n: string, c: Range, v: Version) {
    forall u :: u in AvailableVersions(reg, n) && Contains(c, u) ==> !Newer(u, v)
  }

  // No published version within the constraint on n exceeds the one selected.
  predicate Largest(reg: Registry, s: State) {
    forall n :: n in s.selected ==> n in s.constraints && NoneLarger(reg, n, s.constraints[n], s.selected[n])
  }

  lemma TightenLargest(reg: Registry, s: State, name: string, r: Range, joined: Range)
    requires Largest(reg, s) && Tightened(s, name, r) == Some(joined)
    ensures Largest(reg, s.(constraints := s.constraints[name := joined]))
  {
    hide Contains, Newer, Within, Intersect, AvailableVersions;
    if name in s.selected {
      IntersectWithin(s.constraints[name], r);
      forall u | u in AvailableVersions(reg, name) && Contains(joined, u)
        ensures !Newer(u, s.selected[name])
      {
        WithinContains(joined, s.constraints[name], u);
      }
    }
  }

  lemma {:induction false} WalkLargest(reg: Registry, s: State, name: string, r: Range)
    requires Largest(reg, s) && Walk(reg, s, name, r).Done?
    ensures Largest(reg, Walk(reg, s, name, r).state)
    decreases |Free(reg, s)|, 0, 0
  {
    hide Contains, Newer, WalkAll, AvailableVersions, Dependencies, SelectLatest, Tightened;
    var joined := Tightened(s, name, r).value;
    TightenLargest(reg, s, name, r, joined);
    if name !in s.selected {
      var avail := AvailableVersions(reg, name);
      var v := SelectLatest(joined, avail).value;
      var t := Enter(s, name, joined, v);
      LatestIsLargest(joined, avail);
      FreeShrinks(reg, s, t);
      InReg(reg, name);
      WalkAllLargest(reg, t, Dependencies(reg, name, v), 0);
    }
  }

  lemma {:induction false} WalkAllLargest(reg: Registry, s: State, deps: seq<Dep>, i: nat)
    requires Largest(reg, s) && i <= |deps| && WalkAll(reg, s, deps, i).Done?
    ensures Largest(reg, WalkAll(reg, s, deps, i).state)
    decreases |Free(reg, s)|, 1, |deps| - i
  {
    hide *;
    WalkAllUnfold(reg, s, deps, i);
    if i < |deps| {
      WalkLargest(reg, s, deps[i].name, deps[i].range);
      var t := Walk(reg, s, deps[i].name, deps[i].range).state;
      FreeShrinks(reg, s, t);
      WalkAllLargest(reg, t, deps, i + 1);
    }
  }

  // v meets all that the manifest and the selected releases ask of n.
  ghost predicate Meets(reg: Registry, roots: map<string, Range>, selected: map<string, Version>, n: string, v: Version) {
    forall r :: Demanded(reg, roots, selected, n, r) ==> Contains(r, v)
  }

  // Every selected version is published, meets what is asked of it, and is not
  // exceeded by another published version that does.
  ghost predicate Best(reg: Registry, roots: map<string, Range>, selected: map<string, Version>) {
    forall n :: n in selected ==>
      && selected[n] in AvailableVersions(reg, n) && Meets(reg, roots, selected, n, selected[n])
      && forall u :: u in AvailableVersions(reg, n) && Meets(reg, roots, selected, n, u) ==> !Newer(u, selected[n])
  }

  predicate Covers(roots: map<string, Range>, order: seq<string>) {
    (forall i :: 0 <= i < |order| ==> order[i] in roots) && forall n :: n in roots ==> n in order
  }

  // A choice is made once, when only some of the demands on the package are
  // known; all the same, with all of them in, it is the largest possible.
  lemma SelectsTheBest(reg: Registry, roots: map<string, Range>, order: seq<string>)
    requires Covers(roots, order) && Resolve(reg, roots, order).Done?
    ensures Best(reg, roots, Resolve(reg, roots, order).state.selected)
  {
    hide *;
    RootsReady(reg, roots, order);
    ResolveSound(reg, roots, order);
    StartKeeps(reg, roots);
    StartExact(reg, roots);
    var deps := RootDeps(roots, order);
    WalkAllKeeps(reg, roots, Start(roots), deps, 0);
    WalkAllExact(reg, roots, Start(roots), deps, 0);
    WalkAllLargest(reg, Start(roots), deps, 0);
    LargestIsBest(reg, roots, Resolve(reg, roots, order).state);
  }

  lemma RootsReady(reg: Registry, roots: map<string, Range>, order: seq<string>)
    requires Covers(roots, order)
    ensures (forall i :: 0 <= i < |order| ==> order[i] in roots) && forall n :: n in roots ==> n in order
    ensures Resolve(reg, roots, order) == WalkAll(reg, Start(roots), RootDeps(roots, order), 0)
    ensures Largest(reg, Start(roots))
    ensures var deps := RootDeps(roots, order); forall j :: 0 <= j < |deps| ==>
      MayGo(reg, roots, Start(roots), deps[j].name)
      && Demanded(reg, roots, Start(roots).selected, deps[j].name, deps[j].range)
  {
    hide WalkAll, EdgeTo, Edge;
  }

  lemma LargestIsBest(reg: Registry, roots: map<string, Range>, s: State)
    requires Consistent(reg, roots, s.selected) && Exact(reg, roots, s) && Largest(reg, s)
    ensures Best(reg, roots, s.selected)
  {
    hide Contains, Newer, AvailableVersions, Dependencies;
    forall n | n in s.selected
      ensures Meets(reg, roots, s.selected, n, s.selected[n])
    {
      ConsistentMeets(reg, roots, s.selected, n);
    }
    forall n, u | n in s.selected && u in AvailableVersions(reg, n) && Meets(reg, roots, s.selected, n, u)
      ensures !Newer(u, s.selected[n])
    {
      var ds :| ExplainedBy(reg, roots, s.selected, n, s.constraints[n], ds);
      assert MeetsAll(ds, u);
      assert NoneLarger(reg, n, s.constraints[n], s.selected[n]);
    }
  }

  lemma ConsistentMeets(reg: Registry, roots: map<string, Range>, selected: map<string, Version>, n: string)
    requires Consistent(reg, roots, selected) && n in selected
    ensures Meets(reg, roots, selected, n, selected[n])
  {
    hide Contains, AvailableVersions, Dependencies;
    forall r | Demanded(reg, roots, selected, n, r)
      ensures Contains(r, selected[n])
    {
      if !(n in roots && roots[n] == r) {
        var m :| Edge(reg, selected, m, Dep(n, r));
      }
    }
  }

  /******* When the latest releases go together *******/

  function LatestOf(vs: seq<Version>): (v: Version)
    requires vs != []
    ensures v in vs && forall u :: u in vs ==> !Newer(u, v)
  {
    var last := vs[|vs| - 1];
    if |vs| == 1 then last
    else
      assert forall u :: u in vs ==> u in vs[..|vs| - 1] || u == last;
      var best := LatestOf(vs[..|vs| - 1]);
      if LessThan(best, last) then last else best
  }

  // The latest release of every package that has one.
  function LatestMap(reg: Registry): map<string, Version> {
    map n | n in reg && AvailableVersions(reg, n) != [] :: LatestOf(AvailableVersions(reg, n))
  }

  // Reached from the manifest by way of latest releases.
  ghost predicate Wanted(reg: Registry, roots: map<string, Range>, n: string) {
    Reached(reg, roots, LatestMap(reg), n)
  }

  // r is asked of n by the manifest or by a latest release so reached.
  ghost predicate Wants(reg: Registry, roots: map<string, Range>, n: string, r: Range) {
    (n in roots && roots[n] == r) || exists m :: Wanted(reg, roots, m) && Edge(reg, LatestMap(reg), m, Dep(n, r))
  }

  predicate Allows(reg: Registry, n: string, r: Range) {
    n in LatestMap(reg) ==> Contains(r, LatestMap(reg)[n])
  }

  // Each such demand is met by the latest release of its package.
  ghost predicate LatestFits(reg: Registry, roots: map<string, Range>) {
    forall n, r :: Wants(reg, roots, n, r) ==> Allows(reg, n, r)
  }

  // A chain of dependencies of latest releases that ends in a package without
  // releases, or in one that it has met before.
  ghost predicate BadChain(reg: Registry, roots: map<string, Range>, path: seq<string>) {
    && Chain(reg, roots, LatestMap(reg), path)
    && (path[|path| - 1] !in LatestMap(reg) || path[|path| - 1] in path[..|path| - 1])
  }

  ghost predicate Broken(reg: Registry, roots: map<string, Range>) {
    exists path :: BadChain(reg, roots, path)
  }

  predicate PartOf(a: map<string, Version>, b: map<string, Version>) {
    forall n :: n in a ==> n in b && b[n] == a[n]
  }

  predicate AllLatest(reg: Registry, s: State) {
    PartOf(s.selected, LatestMap(reg)) && forall n :: n in s.constraints ==> Allows(reg, n, s.constraints[n])
  }

  lemma InLatest(reg: Registry, n: string)
    ensures n in LatestMap(reg) <==> AvailableVersions(reg, n) != []
    ensures n in LatestMap(reg) ==> LatestMap(reg)[n] == LatestOf(AvailableVersions(reg, n))
  {
  }

  // In the order of versions only equal ones are not less either way.
  lemma SameVersion(a: Version, b: Version)
    requires !Newer(a, b) && !Newer(b, a)
    ensures a == b
  {
  }

  // The chain the walk stands on, as a chain of latest releases.
  lemma GoingLatest(reg: Registry, roots: map<string, Range>, s: State, name: string)
    requires Inv(reg, roots, s) && MayGo(reg, roots, s, name) && AllLatest(reg, s)
    ensures Chain(reg, roots, LatestMap(reg), s.stack + [name])
    ensures name in s.stack || name !in LatestMap(reg) ==> Broken(reg, roots)
  {
    hide Inv, MayGo, LatestMap, Allows, Chain;
    GoingReaches(reg, roots, s, name);
    ChainGrows(reg, roots, s.selected, LatestMap(reg), s.stack + [name]);
    var path := s.stack + [name];
    assert path[..|path| - 1] == s.stack;
    if name in s.stack || name !in LatestMap(reg) {
      assert BadChain(reg, roots, path);
    }
  }

  lemma TightenLatest(reg: Registry, s: State, name: string, r: Range)
    requires AllLatest(reg, s) && Allows(reg, name, r) && name in LatestMap(reg)
    ensures Tightened(s, name, r).Some?
    ensures var joined := Tightened(s, name, r).value;
      AllLatest(reg, s.(constraints := s.constraints[name := joined])) && Contains(joined, LatestMap(reg)[name])
  {
    hide Contains, Intersect, LatestMap;
    if name in s.constraints {
      IntersectIsExact(s.constraints[name], r);
    }
  }

  lemma SelectsLatest(reg: Registry, name: string, c: Range)
    requires name in LatestMap(reg) && Contains(c, LatestMap(reg)[name])
    ensures AvailableVersions(reg, name) != [] && SelectLatest(c, AvailableVersions(reg, name)) == Some(LatestMap(reg)[name])
  {
    hide Contains, Newer, SelectLatest, AvailableVersions, LatestOf, LatestMap;
    InLatest(reg, name);
    var avail := AvailableVersions(reg, name);
    LatestIsLargest(c, avail);
    SameVersion(SelectLatest(c, avail).value, LatestOf(avail));
  }

  lemma LatestDepsAllow(reg: Registry, roots: map<string, Range>, t: State, name: string)
    requires Inv(reg, roots, t) && AllLatest(reg, t) && LatestFits(reg, roots) && name in t.selected
    ensures var ds := Dependencies(reg, name, t.selected[name]);
      forall j :: 0 <= j < |ds| ==> Allows(reg, ds[j].name, ds[j].range)
  {
    hide Allows, LatestMap, Dependencies, Settled, Chain, AvailableVersions, Contains, Reached;
    var ds := Dependencies(reg, name, t.selected[name]);
    ReachedGrows(reg, roots, t.selected, LatestMap(reg), name);
    forall j | 0 <= j < |ds|
      ensures Allows(reg, ds[j].name, ds[j].range)
    {
      assert Dep(ds[j].name, ds[j].range) == ds[j];
      assert Wanted(reg, roots, name) && Edge(reg, LatestMap(reg), name, Dep(ds[j].name, ds[j].range));
      assert Wants(reg, roots, ds[j].name, ds[j].range);
    }
  }

  // Every choice is the latest release, and a failure shows a bad chain.
  lemma {:induction false} WalkLatest(reg: Registry, roots: map<string, Range>, s: State, name: string, r: Range)
    requires Inv(reg, roots, s) && MayGo(reg, roots, s, name)
    requires LatestFits(reg, roots) && AllLatest(reg, s) && Allows(reg, name, r)
    ensures match Walk(reg, s, name, r)
      case Done(t) => AllLatest(reg, t)
      case Failed(_) => Broken(reg, roots)
    decreases |Free(reg, s)|, 0, 0
  {
    hide Inv, MayGo, WalkAll, Intersect, SelectLatest, AvailableVersions, Dependencies, Contains, Tightened, LatestMap, Allows, Broken,
      LatestFits, PartOf;
    GoingLatest(reg, roots, s, name);
    InLatest(reg, name);
    if name in s.selected {
      InPart(s.selected, LatestMap(reg), name);
    }
    if name !in s.stack && name in LatestMap(reg) {
      TightenLatest(reg, s, name, r);
      var joined := Tightened(s, name, r).value;
      if name !in s.selected {
        SelectsLatest(reg, name, joined);
        EnterReady(reg, roots, s, name, r);
        var t := Enter(s, name, joined, LatestMap(reg)[name]);
        EnterLatest(reg, s, name, joined);
        FreeShrinks(reg, s, t);
        InReg(reg, name);
        DepsGo(reg, roots, t, name);
        LatestDepsAllow(reg, roots, t, name);
        WalkAllLatest(reg, roots, t, Dependencies(reg, name, LatestMap(reg)[name]), 0);
      }
    }
  }

  lemma InPart(a: map<string, Version>, b: map<string, Version>, n: string)
    requires PartOf(a, b) && n in a
    ensures n in b && b[n] == a[n]
  {
  }

  lemma EnterLatest(reg: Registry, s: State, name: string, joined: Range)
    requires AllLatest(reg, s.(constraints := s.constraints[name := joined])) && name in LatestMap(reg)
    ensures AllLatest(reg, Enter(s, name, joined, LatestMap(reg)[name]))
  {
    hide LatestMap, Allows;
  }

  lemma {:induction false} WalkAllLatest(reg: Registry, roots: map<string, Range>, s: State, deps: seq<Dep>, i: nat)
    requires Inv(reg, roots, s) && i <= |deps|
    requires LatestFits(reg, roots) && AllLatest(reg, s)
    requires forall j :: 0 <= j < |deps| ==> MayGo(reg, roots, s, deps[j].name)
    requires forall j :: 0 <= j < |deps| ==> Allows(reg, deps[j].name, deps[j].range)
    ensures match WalkAll(reg, s, deps, i)
      case Done(t) => AllLatest(reg, t)
      case Failed(_) => Broken(reg, roots)
    decreases |Free(reg, s)|, 1, |deps| - i
  {
    hide *;
    WalkAllUnfold(reg, s, deps, i);
    if i < |deps| {
      WalkLatest(reg, roots, s, deps[i].name, deps[i].range);
      var o := Walk(reg, s, deps[i].name, deps[i].range);
      if o.Done? {
        WalkKeeps(reg, roots, s, deps[i].name, deps[i].range);
        FreeShrinks(reg, s, o.state);
        forall j | 0 <= j < |deps|
          ensures MayGo(reg, roots, o.state, deps[j].name)
        {
          MayGoGrows(reg, roots, s, o.state, deps[j].name);
        }
        WalkAllLatest(reg, roots, o.state, deps, i + 1);
      }
    }
  }

  // What is chosen when nothing but latest releases is: those that are reached.
  ghost predicate LatestReached(reg: Registry, roots: map<string, Range>, selected: map<string, Version>) {
    PartOf(selected, LatestMap(reg)) && forall n :: n in selected <==> Wanted(reg, roots, n)
  }

  // Every chain of dependencies of latest releases stays within a consistent
  // selection of latest releases.
  lemma {:induction false} ChainSelected(reg: Registry, roots: map<string, Range>, selected: map<string, Version>, path: seq<string>, k: nat)
    requires Consistent(reg, roots, selected) && PartOf(selected, LatestMap(reg))
    requires Chain(reg, roots, LatestMap(reg), path) && k < |path|
    ensures path[k] in selected
    ensures forall i :: 0 <= i < k ==> EdgeTo(reg, selected, path[i], path[i + 1])
    decreases k
  {
    hide LatestMap, Contains, AvailableVersions, Dependencies;
    if k > 0 {
      ChainSelected(reg, roots, selected, path, k - 1);
      assert EdgeTo(reg, LatestMap(reg), path[k - 1], path[k - 1 + 1]);
      var d :| Edge(reg, LatestMap(reg), path[k - 1], d) && d.name == path[k];
      assert Edge(reg, selected, path[k - 1], d);
    }
  }

  lemma LatestSelection(reg: Registry, roots: map<string, Range>, selected: map<string, Version>, order: seq<string>)
    requires Consistent(reg, roots, selected) && PartOf(selected, LatestMap(reg)) && Ordered(reg, selected, order)
    requires forall n :: n in selected ==> Reached(reg, roots, selected, n)
    ensures LatestReached(reg, roots, selected) && !Broken(reg, roots)
  {
    hide LatestMap, Consistent, Chain, Ordered, EdgeTo, Reached;
    forall n | n in selected
      ensures Wanted(reg, roots, n)
    {
      ReachedGrows(reg, roots, selected, LatestMap(reg), n);
    }
    forall n | Wanted(reg, roots, n)
      ensures n in selected
    {
      ReachedSelected(reg, roots, selected, n);
    }
    forall path | Chain(reg, roots, LatestMap(reg), path)
      ensures !BadChain(reg, roots, path)
    {
      NotBad(reg, roots, selected, order, path);
    }
  }

  lemma ReachedSelected(reg: Registry, roots: map<string, Range>, selected: map<string, Version>, n: string)
    requires Consistent(reg, roots, selected) && PartOf(selected, LatestMap(reg)) && Wanted(reg, roots, n)
    ensures n in selected
  {
    hide LatestMap, Consistent, PartOf;
    var path :| Chain(reg, roots, LatestMap(reg), path) && path[|path| - 1] == n;
    ChainSelected(reg, roots, selected, path, |path| - 1);
  }

  lemma NotBad(reg: Registry, roots: map<string, Range>, selected: map<string, Version>, order: seq<string>, path: seq<string>)
    requires Consistent(reg, roots, selected) && PartOf(selected, LatestMap(reg)) && Ordered(reg, selected, order)
    requires Chain(reg, roots, LatestMap(reg), path)
    ensures !BadChain(reg, roots, path)
  {
    hide LatestMap, Consistent, Ordered, EdgeTo;
    var last := |path| - 1;
    ChainSelected(reg, roots, selected, path, last);
    if path[last] in path[..last] {
      var j :| 0 <= j < last && path[j] == path[last];
      var round := path[j..];
      forall i | 0 <= i < |round| - 1
        ensures EdgeTo(reg, selected, round[i], round[i + 1])
      {
        assert round[i] == path[j + i] && round[i + 1] == path[j + i + 1];
      }
      NoCycle(reg, selected, order, round);
      assert false;
    }
  }

  lemma RootsGo(reg: Registry, roots: map<string, Range>, order: seq<string>)
    requires Covers(roots, order)
    ensures var deps := RootDeps(roots, order); forall j :: 0 <= j < |deps| ==>
      MayGo(reg, roots, Start(roots), deps[j].name) && Wants(reg, roots, deps[j].name, deps[j].range)
    ensures forall n :: n in roots ==> Wants(reg, roots, n, roots[n])
  {
  }

  // If the latest releases meet what they and the manifest ask of each other,
  // resolution succeeds exactly when no chain of them is bad, and selects
  // exactly those that are reached, whatever the order of the roots.
  lemma LatestResolves(reg: Registry, roots: map<string, Range>, order: seq<string>)
    requires Covers(roots, order) && LatestFits(reg, roots)
    ensures var o := Resolve(reg, roots, order);
      && (o.Done? <==> !Broken(reg, roots))
      && (o.Done? ==> LatestReached(reg, roots, o.state.selected))
  {
    var deps := RootDeps(roots, order);
    RootsGo(reg, roots, order);
    StartKeeps(reg, roots);
    assert AllLatest(reg, Start(roots)) by {
      hide LatestMap, Allows, Wants;
    }
    hide Wants, Inv, MayGo, Allows, LatestReached, Broken, Consistent, Ordered, Reached, WalkAll, Start;
    assert forall j :: 0 <= j < |deps| ==> Allows(reg, deps[j].name, deps[j].range);
    WalkAllLatest(reg, roots, Start(roots), deps, 0);
    var o := Resolve(reg, roots, order);
    if o.Done? {
      ResolveSound(reg, roots, order);
      LatestSelection(reg, roots, o.state.selected, o.state.finished);
    }
  }

  lemma LatestReachedUnique(reg: Registry, roots: map<string, Range>, a: map<string, Version>, b: map<string, Version>)
    requires LatestReached(reg, roots, a) && LatestReached(reg, roots, b)
    ensures a == b
  {
    hide LatestMap, Wanted;
    forall n | n in a
      ensures n in b && a[n] == b[n]
    {
      assert Wanted(reg, roots, n);
    }
    forall n | n in b
      ensures n in a
    {
      assert Wanted(reg, roots, n);
    }
  }

  // Then any two orders of the roots have the same outcome.
  lemma OrderIsIrrelevant(reg: Registry, roots: map<string, Range>, order: seq<string>, order': seq<string>)
    requires Covers(roots, order) && Covers(roots, order') && LatestFits(reg, roots)
    ensures var o, o' := Resolve(reg, roots, order), Resolve(reg, roots, order');
      && (o.Done? <==> o'.Done?)
      && (o.Done? ==> o.state.selected == o'.state.selected)
  {
    hide *;
    CoversDef(roots, order);
    CoversDef(roots, order');
    LatestResolves(reg, roots, order);
    LatestResolves(reg, roots, order');
    var o, o' := Resolve(reg, roots, order), Resolve(reg, roots, order');
    if o.Done? {
      LatestReachedUnique(reg, roots, o.state.selected, o'.state.selected);
    }
  }

  // What the condition says of one order: a resolution selects nothing but
  // latest releases if and only if they meet each other's demands.
  lemma AllLatestIff(reg: Registry, roots: map<string, Range>, order: seq<string>)
    requires Covers(roots, order) && Resolve(reg, roots, order).Done?
    ensures PartOf(Resolve(reg, roots, order).state.selected, LatestMap(reg)) <==> LatestFits(reg, roots)
  {
    hide *;
    CoversDef(roots, order);
    var selected := Resolve(reg, roots, order).state.selected;
    ResolveSound(reg, roots, order);
    if LatestFits(reg, roots) {
      LatestResolves(reg, roots, order);
      ReachedPart(reg, roots, selected);
    }
    if PartOf(selected, LatestMap(reg)) {
      LatestSelection(reg, roots, selected, Resolve(reg, roots, order).state.finished);
      SelectionFits(reg, roots, selected);
    }
  }

  lemma CoversDef(roots: map<string, Range>, order: seq<string>)
    requires Covers(roots, order)
    ensures (forall i :: 0 <= i < |order| ==> order[i] in roots) && forall n :: n in roots ==> n in order
  {
  }

  lemma ReachedPart(reg: Registry, roots: map<string, Range>, selected: map<string, Version>)
    requires LatestReached(reg, roots, selected)
    ensures PartOf(selected, LatestMap(reg))
  {
  }

  lemma SelectionFits(reg: Registry, roots: map<string, Range>, selected: map<string, Version>)
    requires Consistent(reg, roots, selected) && LatestReached(reg, roots, selected)
    ensures LatestFits(reg, roots)
  {
    hide LatestMap, Contains, AvailableVersions, Dependencies, Wanted;
    forall n, r | Wants(reg, roots, n, r)
      ensures Allows(reg, n, r)
    {
      if !(n in roots && roots[n] == r) {
        var m :| Wanted(reg, roots, m) && Edge(reg, LatestMap(reg), m, Dep(n, r));
        assert m in selected;
        assert Edge(reg, selected, m, Dep(n, r));
      }
    }
  }

  /******* The order of the roots matters *******/

  const V1 := Version(1, 0, 0)
  const V2 := Version(2, 0, 0)
  const Any := Range(Version(0, 0, 0), Version(0, 0, 0), true)
  const Below2 := Range(Version(0, 0, 0), V2, false)

  // Package a has versions 1 and 2; package b needs a below 2.
  function TwoPackages(): Registry {
    map["a" := [Release(V2, []), Release(V1, [])], "b" := [Release(V1, [Dep("a", Below2)])]]
  }

  // Walking a first selects version 2 and then fails on b; walking b first
  // succeeds with version 1. The roots are iterated in map order, so the same
  // manifest may resolve or not.
  lemma RootOrderMatters()
    ensures var reg := TwoPackages(); var roots := map["a" := Any, "b" := Any];
      && Resolve(reg, roots, ["a", "b"]) == Failed(NoMatch("a"))
      && Resolve(reg, roots, ["b", "a"]).Done?
      && Resolve(reg, roots, ["b", "a"]).state.selected == map["a" := V1, "b" := V1]
  {
    var reg := TwoPackages();
    var roots := map["a" := Any, "b" := Any];
    assert "a" != "b";
    AFirst(reg, roots);
    BFirst(reg, roots);
  }

  lemma RangeFacts()
    ensures SelectLatest(Any, [V2, V1]) == Some(V2) && SelectLatest(Below2, [V2, V1]) == Some(V1)
    ensures Intersect(Any, Any) == Some(Any) && Intersect(Any, Below2) == Some(Below2) && Intersect(Below2, Any) == Some(Below2)
    ensures Contains(Below2, V1)
  {
    var all := [V2, V1];
    assert all[..1] == [V2] && [V2][..0] == [];
    assert SelectLatest(Any, [V2]) == Some(V2) && SelectLatest(Below2, [V2]) == None;
  }

  lemma Facts(reg: Registry)
    requires reg == TwoPackages()
    ensures AvailableVersions(reg, "a") == [V2, V1] && AvailableVersions(reg, "b") == [V1]
    ensures Dependencies(reg, "a", V1) == [] && Dependencies(reg, "a", V2) == [] && Dependencies(reg, "b", V1) == [Dep("a", Below2)]
    ensures SelectLatest(Any, [V2, V1]) == Some(V2) && SelectLatest(Any, [V1]) == Some(V1) && SelectLatest(Below2, [V2, V1]) == Some(V1)
    ensures Intersect(Any, Any) == Some(Any) && Intersect(Any, Below2) == Some(Below2) && Intersect(Below2, Any) == Some(Below2)
    ensures !Contains(Below2, V2) && Contains(Below2, V1)
  {
    assert "a" != "b" && "a" in reg && "b" in reg;
    assert reg["a"][1..] == [Release(V1, [])] && V1 != V2;
    assert ReleaseDeps(reg["a"][1..], V1) == [];
    assert ReleaseDeps(reg["a"], V1) == [];
    assert [V1][..0] == [];
    RangeFacts();
  }

  lemma AFirst(reg: Registry, roots: map<string, Range>)
    requires reg == TwoPackages() && roots == map["a" := Any, "b" := Any]
    ensures Resolve(reg, roots, ["a", "b"]) == Failed(NoMatch("a"))
  {
    Facts(reg);
    assert "a" != "b";
    hide TwoPackages, AvailableVersions, Dependencies, SelectLatest, Intersect, Contains;
    var s := Start(roots);
    var deps := RootDeps(roots, ["a", "b"]);
    assert deps == [Dep("a", Any), Dep("b", Any)];
    var s1 := State(roots["a" := Any], map["a" := V2], [], ["a"]);
    assert Walk(reg, s, "a", Any) == Done(s1) by {
      var t := Enter(s, "a", Any, V2);
      assert t.stack == ["a"];
      assert WalkAll(reg, t, [], 0) == Done(t);
      assert Leave(t) == s1;
    }
    assert Walk(reg, s1, "b", Any) == Failed(NoMatch("a")) by {
      var t := Enter(s1, "b", Any, V1);
      var inner := [Dep("a", Below2)];
      assert t.stack == ["b"];
      assert Walk(reg, t, "a", Below2) == Failed(NoMatch("a"));
      assert WalkAll(reg, t, inner, 0) == Failed(NoMatch("a"));
    }
    assert WalkAll(reg, s1, deps, 1) == Failed(NoMatch("a"));
  }

  lemma BFirst(reg: Registry, roots: map<string, Range>)
    requires reg == TwoPackages() && roots == map["a" := Any, "b" := Any]
    ensures Resolve(reg, roots, ["b", "a"]).Done?
    ensures Resolve(reg, roots, ["b", "a"]).state.selected == map["a" := V1, "b" := V1]
  {
    Facts(reg);
    assert "a" != "b";
    hide TwoPackages, AvailableVersions, Dependencies, SelectLatest, Intersect, Contains;
    var s := Start(roots);
    var deps := RootDeps(roots, ["b", "a"]);
    assert deps == [Dep("b", Any), Dep("a", Any)];
    var t := Enter(s, "b", Any, V1);
    assert t.stack == ["b"];
    var t2 := Enter(t, "a", Below2, V1);
    assert t2.stack == ["b", "a"];
    assert WalkAll(reg, t2, [], 0) == Done(t2);
    var t3 := Leave(t2);
    assert t3.stack == ["b"];
    assert Walk(reg, t, "a", Below2) == Done(t3);
    var inner := [Dep("a", Below2)];
    assert WalkAll(reg, t3, inner, 1) == Done(t3);
    assert WalkAll(reg, t, inner, 0) == Done(t3);
    var s1 := Leave(t3);
    assert s1.stack == [] && s1.selected == map["b" := V1, "a" := V1] && s1.constraints["a"] == Below2;
    assert Walk(reg, s, "b", Any) == Done(s1);
    var s2 := s1.(constraints := s1.constraints["a" := Below2]);
    assert Walk(reg, s1, "a", Any) == Done(s2);
    assert WalkAll(reg, s2, deps, 2) == Done(s2);
    assert WalkAll(reg, s1, deps, 1) == Done(s2);
  }

  // Packages p and q have versions 1 and 2, and version 2 of each needs the
  // other below 2.
  function Rivals(): Registry {
    map["p" := [Release(V2, [Dep("q", Below2)]), Release(V1, [])],
        "q" := [Release(V2, [Dep("p", Below2)]), Release(V1, [])]]
  }

  // Either order of the roots resolves, and each gives the package walked
  // first its version 2; both selections are the best for their demands.
  lemma TwoResolutions()
    ensures var reg, roots := Rivals(), map["p" := Any, "q" := Any];
      var pq, qp := Resolve(reg, roots, ["p", "q"]), Resolve(reg, roots, ["q", "p"]);
      && pq.Done? && pq.state.selected == map["p" := V2, "q" := V1]
      && qp.Done? && qp.state.selected == map["p" := V1, "q" := V2]
      && Best(reg, roots, pq.state.selected) && Best(reg, roots, qp.state.selected)
      && !LatestFits(reg, roots)
  {
    hide Resolve, Best, LatestFits, PartOf;
    var reg, roots := Rivals(), map["p" := Any, "q" := Any];
    assert "p" != "q";
    RivalFacts(reg, "p", "q");
    RivalFacts(reg, "q", "p");
    RivalFirst(reg, roots, "p", "q");
    RivalFirst(reg, roots, "q", "p");
    var pq, qp := ["p", "q"], ["q", "p"];
    assert pq[0] == "p" && pq[1] == "q" && qp[0] == "q" && qp[1] == "p";
    assert Covers(roots, pq) && Covers(roots, qp);
    SelectsTheBest(reg, roots, pq);
    SelectsTheBest(reg, roots, qp);
    if LatestFits(reg, roots) {
      OrderIsIrrelevant(reg, roots, pq, qp);
    }
  }

  lemma RivalFacts(reg: Registry, x: string, y: string)
    requires reg == Rivals() && ((x == "p" && y == "q") || (x == "q" && y == "p"))
    ensures AvailableVersions(reg, x) == [V2, V1]
    ensures Dependencies(reg, x, V2) == [Dep(y, Below2)] && Dependencies(reg, x, V1) == []
  {
    assert "p" != "q" && x in reg;
    assert reg[x][1..] == [Release(V1, [])] && V1 != V2;
    assert ReleaseDeps(reg[x][1..], V1) == [];
  }

  lemma RivalFirst(reg: Registry, roots: map<string, Range>, x: string, y: string)
    requires x != y && roots == map[x := Any, y := Any]
    requires AvailableVersions(reg, x) == [V2, V1] && AvailableVersions(reg, y) == [V2, V1]
    requires Dependencies(reg, x, V2) == [Dep(y, Below2)] && Dependencies(reg, y, V1) == []
    ensures Resolve(reg, roots, [x, y]).Done?
    ensures Resolve(reg, roots, [x, y]).state.selected == map[x := V2, y := V1]
  {
    RangeFacts();
    hide AvailableVersions, Dependencies, SelectLatest, Intersect, Contains;
    var s := Start(roots);
    var deps := RootDeps(roots, [x, y]);
    assert deps == [Dep(x, Any), Dep(y, Any)];
    var t := Enter(s, x, Any, V2);
    assert t.stack == [x];
    var t2 := Enter(t, y, Below2, V1);
    assert t2.stack == [x, y];
    assert WalkAll(reg, t2, [], 0) == Done(t2);
    var t3 := Leave(t2);
    assert t3.stack == [x];
    assert Walk(reg, t, y, Below2) == Done(t3);
    var inner := [Dep(y, Below2)];
    assert WalkAll(reg, t3, inner, 1) == Done(t3);
    assert WalkAll(reg, t, inner, 0) == Done(t3);
    var s1 := Leave(t3);
    assert s1.stack == [] && s1.selected == map[x := V2, y := V1] && s1.constraints[y] == Below2;
    assert Walk(reg, s, x, Any) == Done(s1);
    var s2 := s1.(constraints := s1.constraints[y := Below2]);
    assert Walk(reg, s1, y, Any) == Done(s2);
    assert WalkAll(reg, s2, deps, 2) == Done(s2);
    assert WalkAll(reg, s1, deps, 1) == Done(s2);
  }
}
