// Dependency resolution: a depth-first walk that tightens constraints, selects
// the latest matching version of each package once, and refuses cycles.
module Resolution {
  import opened Versions

  datatype Dep = Dep(name: string, range: Range)
  datatype Release = Release(version: Version, deps: seq<Dep>)

  // The package index: finitely many packages, each with its releases.
  type Registry = map<string, seq<Release>>

  function AvailableVersions(reg: Registry, name: string): seq<Version> {
    if name in reg then seq(|reg[name]|, i requires 0 <= i < |reg[name]| => reg[name][i].version) else []
  }

  function ReleaseDeps(rs: seq<Release>, v: Version): seq<Dep> {
    if rs == [] then [] else if rs[0].version == v then rs[0].deps else ReleaseDeps(rs[1..], v)
  }

  function Dependencies(reg: Registry, name: string, v: Version): seq<Dep> {
    if name in reg then ReleaseDeps(reg[name], v) else []
  }

  // What the index says of a package.
  lemma PublishedIff(reg: Registry, name: string, v: Version)
    ensures v in AvailableVersions(reg, name) <==> name in reg && exists i :: 0 <= i < |reg[name]| && reg[name][i].version == v
  {
    var vs := AvailableVersions(reg, name);
    if name in reg {
      assert forall i :: 0 <= i < |reg[name]| ==> vs[i] == reg[name][i].version;
      if i :| 0 <= i < |reg[name]| && reg[name][i].version == v {
        assert vs[i] in vs;
      }
    }
  }

  // The dependencies of a version are those of its first release.
  lemma {:induction false} ReleaseDepsAt(rs: seq<Release>, v: Version, k: nat)
    requires k < |rs| && rs[k].version == v && forall i :: 0 <= i < k ==> rs[i].version != v
    ensures ReleaseDeps(rs, v) == rs[k].deps
    decreases k
  {
    if k > 0 {
      ReleaseDepsAt(rs[1..], v, k - 1);
    }
  }

  lemma DependenciesAt(reg: Registry, name: string, v: Version, k: nat)
    requires name in reg && k < |reg[name]| && reg[name][k].version == v
    requires forall i :: 0 <= i < k ==> reg[name][i].version != v
    ensures Dependencies(reg, name, v) == reg[name][k].deps
  {
    ReleaseDepsAt(reg[name], v, k);
  }

  datatype Error = Cycle(path: seq<string>) | NoMatch(name: string) | Unknown(name: string)

  // The walk's state. `stack` holds the packages being visited; `finished`
  // lists the packages whose dependencies have all been walked, in that order.
  datatype State = State(
    constraints: map<string, Range>, selected: map<string, Version>, stack: seq<string>, finished: seq<string>)

  datatype Outcome = Done(state: State) | Failed(error: Error)

  // Packages not selected yet.
  ghost function Free(reg: Registry, s: State): set<string> {
    reg.Keys - s.selected.Keys
  }

  lemma FreeShrinks(reg: Registry, s: State, t: State)
    requires s.selected.Keys <= t.selected.Keys
    ensures |Free(reg, t)| <= |Free(reg, s)|
    ensures forall n :: n in reg && n !in s.selected && n in t.selected ==> |Free(reg, t)| < |Free(reg, s)|
  {
    Subset(Free(reg, t), Free(reg, s));
  }

  lemma Subset<T>(a: set<T>, b: set<T>)
    requires a <= b
    ensures |a| <= |b|
    ensures forall x :: x in b && x !in a ==> |a| < |b|
  {
    if x :| x in b && x !in a {
      Subset(a, b - {x});
    } else {
      assert a == b;
    }
  }

  /******* The walk *******/

  // The constraint on name once r is added to what is known.
  function Tightened(s: State, name: string, r: Range): Option<Range> {
    if name in s.constraints then Intersect(s.constraints[name], r) else Some(r)
  }

  function Enter(s: State, name: string, joined: Range, v: Version): State {
    State(s.constraints[name := joined], s.selected[name := v], s.stack + [name], s.finished)
  }

  function Leave(s: State): State
    requires s.stack != []
  {
    s.(stack := s.stack[..|s.stack| - 1], finished := s.finished + [s.stack[|s.stack| - 1]])
  }

  function Walk(reg: Registry, s: State, name: string, r: Range): (o: Outcome)
    ensures o.Done? ==> s.selected.Keys <= o.state.selected.Keys && o.state.stack == s.stack
    decreases |Free(reg, s)|, 0, 0
  {
    if name in s.stack then Failed(Cycle(s.stack + [name]))
    else
      var joined := Tightened(s, name, r);
      if joined.None? then Failed(NoMatch(name))
      else if name in s.selected then
        if Contains(joined.value, s.selected[name])
        then Done(s.(constraints := s.constraints[name := joined.value]))
        else Failed(NoMatch(name))
      else
        var avail := AvailableVersions(reg, name);
        if avail == [] then Failed(Unknown(name))
        else
          var v := SelectLatest(joined.value, avail);
          if v.None? then Failed(NoMatch(name))
          else
            var t := Enter(s, name, joined.value, v.value);
            FreeShrinks(reg, s, t);
            var o := WalkAll(reg, t, Dependencies(reg, name, v.value), 0);
            if o.Failed? then o else Done(Leave(o.state))
  }

  // The dependencies from the i-th on.
  function WalkAll(reg: Registry, s: State, deps: seq<Dep>, i: nat): (o: Outcome)
    requires i <= |deps|
    ensures o.Done? ==> s.selected.Keys <= o.state.selected.Keys && o.state.stack == s.stack
    decreases |Free(reg, s)|, 1, |deps| - i
  {
    if i == |deps| then Done(s)
    else
      var o := Walk(reg, s, deps[i].name, deps[i].range);
      if o.Failed? then o
      else
        FreeShrinks(reg, s, o.state);
        WalkAll(reg, o.state, deps, i + 1)
  }

  function Start(roots: map<string, Range>): State {
    State(roots, map[], [], [])
  }

  // The root constraints, in the order the map happens to be iterated.
  function RootDeps(roots: map<string, Range>, order: seq<string>): seq<Dep>
    requires forall i :: 0 <= i < |order| ==> order[i] in roots
  {
    seq(|order|, i requires 0 <= i < |order| => Dep(order[i], roots[order[i]]))
  }

  function Resolve(reg: Registry, roots: map<string, Range>, order: seq<string>): Outcome
    requires forall i :: 0 <= i < |order| ==> order[i] in roots
  {
    WalkAll(reg, Start(roots), RootDeps(roots, order), 0)
  }

  /******* What the state always satisfies *******/

  predicate Within(a: Range, b: Range) {
    !LessThan(a.lower, b.lower) && (b.unbounded || (!a.unbounded && !LessThan(b.upper, a.upper)))
  }

  lemma WithinContains(a: Range, b: Range, v: Version)
    requires Within(a, b) && Contains(a, v)
    ensures Contains(b, v)
  {
  }

  lemma IntersectWithin(a: Range, b: Range)
    requires Intersect(a, b).Some?
    ensures Within(Intersect(a, b).value, a) && Within(Intersect(a, b).value, b)
  {
  }

  lemma WithinTrans(a: Range, b: Range, c: Range)
    requires Within(a, b) && Within(b, c)
    ensures Within(a, c)
  {
  }

  // d is a dependency of the selected release of n.
  predicate Edge(reg: Registry, selected: map<string, Version>, n: string, d: Dep) {
    n in selected && d in Dependencies(reg, n, selected[n])
  }

  ghost predicate EdgeTo(reg: Registry, selected: map<string, Version>, n: string, name: string) {
    exists d :: Edge(reg, selected, n, d) && d.name == name
  }

  // A chain of dependencies that begins at a root.
  ghost predicate Chain(reg: Registry, roots: map<string, Range>, selected: map<string, Version>, path: seq<string>) {
    path != [] && path[0] in roots && forall i :: 0 <= i < |path| - 1 ==> EdgeTo(reg, selected, path[i], path[i + 1])
  }

  ghost predicate Reached(reg: Registry, roots: map<string, Range>, selected: map<string, Version>, n: string) {
    exists path :: Chain(reg, roots, selected, path) && path[|path| - 1] == n
  }

  // The walk may go to name next.
  ghost predicate MayGo(reg: Registry, roots: map<string, Range>, s: State, name: string) {
    if s.stack == [] then name in roots
    else EdgeTo(reg, s.selected, s.stack[|s.stack| - 1], name)
  }

  // Every dependency of n was walked before n was finished, and its
  // constraint is recorded.
  predicate Settled(reg: Registry, s: State, k: nat)
    requires k < |s.finished|
  {
    var n := s.finished[k];
    n in s.selected && forall d :: d in Dependencies(reg, n, s.selected[n]) ==> Recorded(s, d, k)
  }

  predicate Recorded(s: State, d: Dep, k: nat)
    requires k <= |s.finished|
  {
    d.name in s.finished[..k] && d.name in s.constraints && Within(s.constraints[d.name], d.range)
  }

  ghost predicate Inv(reg: Registry, roots: map<string, Range>, s: State) {
    && (forall n :: n in s.selected ==>
         n in s.constraints && Contains(s.constraints[n], s.selected[n]) && s.selected[n] in AvailableVersions(reg, n))
    && (forall n :: n in s.selected ==> n in s.finished || n in s.stack)
    && (forall n :: n in s.finished || n in s.stack ==> n in s.selected)
    && (forall n :: n in s.selected ==> Reached(reg, roots, s.selected, n))
    && (forall n :: n in roots ==> n in s.constraints && Within(s.constraints[n], roots[n]))
    && (forall k :: 0 <= k < |s.finished| ==> Settled(reg, s, k))
    && (s.stack != [] ==> Chain(reg, roots, s.selected, s.stack))
  }

  // The state only moves on: constraints tighten, choices stay.
  ghost predicate Grows(s: State, t: State) {
    && (forall n :: n in s.constraints ==> n in t.constraints && Within(t.constraints[n], s.constraints[n]))
    && (forall n :: n in s.selected ==> n in t.selected && t.selected[n] == s.selected[n])
    && |s.finished| <= |t.finished| && t.finished[..|s.finished|] == s.finished
  }

  lemma GrowsTrans(s: State, t: State, u: State)
    requires Grows(s, t) && Grows(t, u)
    ensures Grows(s, u)
  {
    forall n | n in s.constraints
      ensures n in u.constraints && Within(u.constraints[n], s.constraints[n])
    {
      WithinTrans(u.constraints[n], t.constraints[n], s.constraints[n]);
    }
    assert u.finished[..|s.finished|] == t.finished[..|s.finished|];
  }

  lemma EdgeGrows(reg: Registry, a: map<string, Version>, b: map<string, Version>, n: string, name: string)
    requires EdgeTo(reg, a, n, name) && (forall x :: x in a ==> x in b && b[x] == a[x])
    ensures EdgeTo(reg, b, n, name)
  {
    var d :| Edge(reg, a, n, d) && d.name == name;
    assert Edge(reg, b, n, d);
  }

  lemma ChainGrows(reg: Registry, roots: map<string, Range>, a: map<string, Version>, b: map<string, Version>, path: seq<string>)
    requires Chain(reg, roots, a, path) && (forall x :: x in a ==> x in b && b[x] == a[x])
    ensures Chain(reg, roots, b, path)
  {
    forall i | 0 <= i < |path| - 1
      ensures EdgeTo(reg, b, path[i], path[i + 1])
    {
      EdgeGrows(reg, a, b, path[i], path[i + 1]);
    }
  }

  lemma ReachedGrows(reg: Registry, roots: map<string, Range>, a: map<string, Version>, b: map<string, Version>, n: string)
    requires Reached(reg, roots, a, n) && (forall x :: x in a ==> x in b && b[x] == a[x])
    ensures Reached(reg, roots, b, n)
  {
    var path :| Chain(reg, roots, a, path) && path[|path| - 1] == n;
    ChainGrows(reg, roots, a, b, path);
  }

  lemma MayGoGrows(reg: Registry, roots: map<string, Range>, s: State, t: State, name: string)
    requires MayGo(reg, roots, s, name) && Grows(s, t) && s.stack == t.stack
    ensures MayGo(reg, roots, t, name)
  {
    if s.stack != [] {
      EdgeGrows(reg, s.selected, t.selected, s.stack[|s.stack| - 1], name);
    }
  }

  // The chain the walk stands on leads to name.
  lemma GoingReaches(reg: Registry, roots: map<string, Range>, s: State, name: string)
    requires Inv(reg, roots, s) && MayGo(reg, roots, s, name)
    ensures Chain(reg, roots, s.selected, s.stack + [name])
  {
    hide Settled, Reached, Contains, Within, EdgeTo, AvailableVersions;
    var path := s.stack + [name];
    forall i | 0 <= i < |path| - 1
      ensures EdgeTo(reg, s.selected, path[i], path[i + 1])
    {
      if i < |s.stack| - 1 {
        assert path[i] == s.stack[i] && path[i + 1] == s.stack[i + 1];
      }
    }
  }

  /******* Each step keeps it *******/

  lemma SettledTightens(reg: Registry, s: State, c: map<string, Range>, k: nat)
    requires k < |s.finished| && Settled(reg, s, k)
    requires forall n :: n in s.constraints ==> n in c && Within(c[n], s.constraints[n])
    ensures Settled(reg, s.(constraints := c), k)
  {
    var t := s.(constraints := c);
    var n := s.finished[k];
    forall d | d in Dependencies(reg, n, s.selected[n])
      ensures Recorded(t, d, k)
    {
      assert Recorded(s, d, k);
      WithinTrans(c[d.name], s.constraints[d.name], d.range);
    }
  }

  lemma WithinSelf(a: Range)
    ensures Within(a, a)
  {
  }

  // Tightening one constraint.
  lemma TightenKeeps(reg: Registry, roots: map<string, Range>, s: State, name: string, r: Range, joined: Range)
    requires Inv(reg, roots, s) && Tightened(s, name, r) == Some(joined)
    requires name in s.selected ==> Contains(joined, s.selected[name])
    ensures var t := s.(constraints := s.constraints[name := joined]);
      Inv(reg, roots, t) && Grows(s, t) && Within(joined, r)
  {
    hide Within, Intersect, Contains, EdgeTo, AvailableVersions, Settled, Chain, Reached;
    var c := s.constraints[name := joined];
    var t := s.(constraints := c);
    TightenedWithin(s, name, r, joined);
    forall k | 0 <= k < |t.finished|
      ensures Settled(reg, t, k)
    {
      SettledTightens(reg, s, c, k);
    }
    forall n | n in roots
      ensures n in c && Within(c[n], roots[n])
    {
      WithinTrans(c[n], s.constraints[n], roots[n]);
    }
  }

  lemma TightenedWithin(s: State, name: string, r: Range, joined: Range)
    requires Tightened(s, name, r) == Some(joined)
    ensures Within(joined, r)
    ensures forall n :: n in s.constraints ==> Within(s.constraints[name := joined][n], s.constraints[n])
  {
    hide Within, Intersect;
    WithinSelf(r);
    if name in s.constraints {
      IntersectWithin(s.constraints[name], r);
    }
    forall n | n in s.constraints
      ensures Within(s.constraints[name := joined][n], s.constraints[n])
    {
      WithinSelf(s.constraints[n]);
    }
  }

  // Selecting a version of a package that has none, and going into it.
  lemma EnterKeeps(reg: Registry, roots: map<string, Range>, s: State, name: string, v: Version)
    requires Inv(reg, roots, s) && MayGo(reg, roots, s, name) && name !in s.selected && name in s.constraints
    requires Contains(s.constraints[name], v) && v in AvailableVersions(reg, name)
    ensures var t := s.(selected := s.selected[name := v], stack := s.stack + [name]);
      Inv(reg, roots, t) && Grows(s, t)
  {
    hide Within, Contains, EdgeTo, AvailableVersions, Chain, Reached, MayGo, Settled;
    var t := s.(selected := s.selected[name := v], stack := s.stack + [name]);
    GoingReaches(reg, roots, s, name);
    ChainGrows(reg, roots, s.selected, t.selected, t.stack);
    ChainReaches(reg, roots, t.selected, t.stack);
    forall n | n in t.selected
      ensures Reached(reg, roots, t.selected, n)
    {
      if n != name {
        ReachedGrows(reg, roots, s.selected, t.selected, n);
      }
    }
    forall n | n in s.constraints
      ensures Within(t.constraints[n], s.constraints[n])
    {
      WithinSelf(s.constraints[n]);
    }
    forall k | 0 <= k < |t.finished|
      ensures Settled(reg, t, k)
    {
      assert Settled(reg, s, k);
      SettledSelects(reg, s, t, k);
    }
  }

  lemma ChainReaches(reg: Registry, roots: map<string, Range>, selected: map<string, Version>, path: seq<string>)
    requires Chain(reg, roots, selected, path)
    ensures Reached(reg, roots, selected, path[|path| - 1])
  {
  }

  lemma SettledSelects(reg: Registry, s: State, t: State, k: nat)
    requires k < |s.finished| && Settled(reg, s, k)
    requires t.finished == s.finished && t.constraints == s.constraints
    requires s.finished[k] in t.selected && s.finished[k] in s.selected && t.selected[s.finished[k]] == s.selected[s.finished[k]]
    ensures Settled(reg, t, k)
  {
    forall d | d in Dependencies(reg, t.finished[k], t.selected[t.finished[k]])
      ensures Recorded(t, d, k)
    {
      assert Recorded(s, d, k);
    }
  }

  // Leaving a package all of whose dependencies are recorded.
  lemma LeaveKeeps(reg: Registry, roots: map<string, Range>, s: State)
    requires Inv(reg, roots, s) && s.stack != []
    requires var n := s.stack[|s.stack| - 1];
      n in s.selected && forall d :: d in Dependencies(reg, n, s.selected[n]) ==> Recorded(s, d, |s.finished|)
    ensures Inv(reg, roots, Leave(s)) && Grows(s, Leave(s))
  {
    var t := Leave(s);
    var n := s.stack[|s.stack| - 1];
    forall x | x in s.constraints
      ensures Within(t.constraints[x], s.constraints[x])
    {
      WithinSelf(s.constraints[x]);
    }
    hide Within, Contains, EdgeTo, AvailableVersions, Reached, Settled, Recorded, Chain, Dependencies;
    forall k | 0 <= k < |t.finished|
      ensures Settled(reg, t, k)
    {
      SettledLeaves(reg, s, k);
    }
    LeaveMembers(s);
    if t.stack != [] {
      ChainFront(reg, roots, s.selected, s.stack);
    }
    hide Leave;
  }

  lemma LeaveMembers(s: State)
    requires s.stack != []
    ensures var t := Leave(s); forall x :: x in t.finished || x in t.stack <==> x in s.finished || x in s.stack
    ensures Leave(s).finished[..|s.finished|] == s.finished
  {
    var t := Leave(s);
    var n := s.stack[|s.stack| - 1];
    assert s.stack == t.stack + [n];
    assert t.finished == s.finished + [n];
  }

  lemma ChainFront(reg: Registry, roots: map<string, Range>, selected: map<string, Version>, path: seq<string>)
    requires Chain(reg, roots, selected, path) && |path| > 1
    ensures Chain(reg, roots, selected, path[..|path| - 1])
  {
    var t := path[..|path| - 1];
    forall i | 0 <= i < |t| - 1
      ensures EdgeTo(reg, selected, t[i], t[i + 1])
    {
      assert t[i] == path[i] && t[i + 1] == path[i + 1];
    }
  }

  lemma SettledLeaves(reg: Registry, s: State, k: nat)
    requires s.stack != [] && k <= |s.finished|
    requires k < |s.finished| ==> Settled(reg, s, k)
    requires var n := s.stack[|s.stack| - 1];
      n in s.selected && forall d :: d in Dependencies(reg, n, s.selected[n]) ==> Recorded(s, d, |s.finished|)
    ensures Settled(reg, Leave(s), k)
  {
    var t := Leave(s);
    assert t.finished[..k] == s.finished[..k];
    forall d | d in Dependencies(reg, t.finished[k], t.selected[t.finished[k]])
      ensures Recorded(t, d, k)
    {
      assert Recorded(s, d, k);
    }
  }

  /******* The whole walk keeps it *******/

  lemma {:induction false} WalkKeeps(reg: Registry, roots: map<string, Range>, s: State, name: string, r: Range)
    requires Inv(reg, roots, s) && MayGo(reg, roots, s, name) && Walk(reg, s, name, r).Done?
    ensures var t := Walk(reg, s, name, r).state;
      Inv(reg, roots, t) && Grows(s, t) && Recorded(t, Dep(name, r), |t.finished|)
    decreases |Free(reg, s)|, 0, 0
  {
    hide Inv, MayGo, Grows, WalkAll, Intersect, SelectLatest, AvailableVersions, Dependencies, Within, Contains;
    var joined := Tightened(s, name, r).value;
    var avail := AvailableVersions(reg, name);
    if name in s.selected {
      TightenKeeps(reg, roots, s, name, r, joined);
      InvSelected(reg, roots, s, name);
    } else {
      var v := SelectLatest(joined, avail).value;
      LatestIsLargest(joined, avail);
      TightenKeeps(reg, roots, s, name, r, joined);
      var s1 := s.(constraints := s.constraints[name := joined]);
      MayGoGrows(reg, roots, s, s1, name);
      EnterKeeps(reg, roots, s1, name, v);
      var t := Enter(s, name, joined, v);
      assert t == s1.(selected := s1.selected[name := v], stack := s1.stack + [name]);
      GrowsTrans(s, s1, t);
      FreeShrinks(reg, s, t);
      InReg(reg, name);
      var deps := Dependencies(reg, name, v);
      DepsGo(reg, roots, t, name);
      WalkAllKeeps(reg, roots, t, deps, 0);
      var u := WalkAll(reg, t, deps, 0).state;
      GrowsTrans(s, t, u);
      GrowsFacts(t, u);
      WithinTrans(u.constraints[name], joined, r);
      LeaveKeeps(reg, roots, u);
      GrowsTrans(s, u, Leave(u));
      RecordedLast(u, Dep(name, r));
    }
  }

  lemma RecordedLast(s: State, d: Dep)
    requires s.stack != [] && s.stack[|s.stack| - 1] == d.name && d.name in s.constraints && Within(s.constraints[d.name], d.range)
    ensures Recorded(Leave(s), d, |Leave(s).finished|)
  {
    var t := Leave(s);
    assert t.finished[..|t.finished|][|s.finished|] == d.name;
  }

  lemma GrowsFacts(s: State, t: State)
    requires Grows(s, t)
    ensures forall n :: n in s.constraints ==> n in t.constraints && Within(t.constraints[n], s.constraints[n])
    ensures forall n :: n in s.selected ==> n in t.selected && t.selected[n] == s.selected[n]
    ensures |s.finished| <= |t.finished|
  {
  }

  lemma InReg(reg: Registry, name: string)
    requires AvailableVersions(reg, name) != []
    ensures name in reg
  {
  }

  lemma InvSelected(reg: Registry, roots: map<string, Range>, s: State, name: string)
    requires Inv(reg, roots, s) && name in s.selected && name !in s.stack
    ensures name in s.finished
  {
  }

  lemma DepsGo(reg: Registry, roots: map<string, Range>, t: State, name: string)
    requires t.stack != [] && t.stack[|t.stack| - 1] == name && name in t.selected
    ensures forall j :: 0 <= j < |Dependencies(reg, name, t.selected[name])| ==>
      MayGo(reg, roots, t, Dependencies(reg, name, t.selected[name])[j].name)
  {
    forall j | 0 <= j < |Dependencies(reg, name, t.selected[name])|
      ensures MayGo(reg, roots, t, Dependencies(reg, name, t.selected[name])[j].name)
    {
      assert Edge(reg, t.selected, name, Dependencies(reg, name, t.selected[name])[j]);
    }
  }

  lemma RecordedGrows(s: State, t: State, d: Dep)
    requires Grows(s, t) && Recorded(s, d, |s.finished|)
    ensures Recorded(t, d, |t.finished|)
  {
    WithinTrans(t.constraints[d.name], s.constraints[d.name], d.range);
    assert d.name in t.finished[..|s.finished|];
  }

  lemma {:induction false} WalkAllKeeps(reg: Registry, roots: map<string, Range>, s: State, deps: seq<Dep>, i: nat)
    requires Inv(reg, roots, s) && i <= |deps| && WalkAll(reg, s, deps, i).Done?
    requires forall j :: 0 <= j < |deps| ==> MayGo(reg, roots, s, deps[j].name)
    ensures var t := WalkAll(reg, s, deps, i).state;
      Inv(reg, roots, t) && Grows(s, t) && forall j :: i <= j < |deps| ==> Recorded(t, deps[j], |t.finished|)
    decreases |Free(reg, s)|, 1, |deps| - i
  {
    hide *;
    WalkAllUnfold(reg, s, deps, i);
    if i == |deps| {
      GrowsSelf(s);
    } else {
      WalkKeeps(reg, roots, s, deps[i].name, deps[i].range);
      var t := Walk(reg, s, deps[i].name, deps[i].range).state;
      FreeShrinks(reg, s, t);
      forall j | 0 <= j < |deps|
        ensures MayGo(reg, roots, t, deps[j].name)
      {
        MayGoGrows(reg, roots, s, t, deps[j].name);
      }
      WalkAllKeeps(reg, roots, t, deps, i + 1);
      var u := WalkAll(reg, t, deps, i + 1).state;
      GrowsTrans(s, t, u);
      assert Dep(deps[i].name, deps[i].range) == deps[i];
      RecordedGrows(t, u, deps[i]);
    }
  }

  lemma WalkAllUnfold(reg: Registry, s: State, deps: seq<Dep>, i: nat)
    requires i <= |deps|
    ensures if i == |deps| then WalkAll(reg, s, deps, i) == Done(s)
      else
        var o := Walk(reg, s, deps[i].name, deps[i].range);
        WalkAll(reg, s, deps, i) == if o.Failed? then o else WalkAll(reg, o.state, deps, i + 1)
  {
    hide Walk;
  }

  lemma GrowsSelf(s: State)
    ensures Grows(s, s)
  {
    forall n | n in s.constraints
      ensures Within(s.constraints[n], s.constraints[n])
    {
      WithinSelf(s.constraints[n]);
    }
  }

  /******* The theorems *******/

  // Every root constraint and every dependency of every selected release is
  // met by the selected versions, which are all published.
  ghost predicate Consistent(reg: Registry, roots: map<string, Range>, selected: map<string, Version>) {
    && (forall n :: n in roots ==> n in selected && Contains(roots[n], selected[n]))
    && (forall n :: n in selected ==> selected[n] in AvailableVersions(reg, n))
    && (forall n, d :: Edge(reg, selected, n, d) ==> d.name in selected && Contains(d.range, selected[d.name]))
  }

  // Every selected package comes after all its dependencies.
  ghost predicate Ordered(reg: Registry, selected: map<string, Version>, order: seq<string>) {
    && (forall n :: n in selected <==> n in order)
    && (forall k, d :: 0 <= k < |order| && Edge(reg, selected, order[k], d) ==> d.name in order[..k])
  }

  lemma StartKeeps(reg: Registry, roots: map<string, Range>)
    ensures Inv(reg, roots, Start(roots))
  {
    forall n | n in roots
      ensures Within(roots[n], roots[n])
    {
      WithinSelf(roots[n]);
    }
  }

  // Whatever order the roots are walked in, a successful resolution is
  // consistent, holds only packages reached from the root, and has an order
  // in which dependencies come first.
  lemma ResolveSound(reg: Registry, roots: map<string, Range>, order: seq<string>)
    requires (forall i :: 0 <= i < |order| ==> order[i] in roots) && (forall n :: n in roots ==> n in order)
    requires Resolve(reg, roots, order).Done?
    ensures var s := Resolve(reg, roots, order).state;
      && Consistent(reg, roots, s.selected)
      && (forall n :: n in s.selected ==> Reached(reg, roots, s.selected, n))
      && Ordered(reg, s.selected, s.finished)
  {
    var deps := RootDeps(roots, order);
    StartKeeps(reg, roots);
    WalkAllKeeps(reg, roots, Start(roots), deps, 0);
    var s := Resolve(reg, roots, order).state;
    assert s.stack == [];
    assert forall n :: n in roots ==> Recorded(s, Dep(n, roots[n]), |s.finished|) by {
      forall n | n in roots
        ensures Recorded(s, Dep(n, roots[n]), |s.finished|)
      {
        var i :| 0 <= i < |order| && order[i] == n;
        assert deps[i] == Dep(n, roots[n]);
      }
    }
    hide *;
    FinalState(reg, roots, s);
  }

  lemma FinalState(reg: Registry, roots: map<string, Range>, s: State)
    requires Inv(reg, roots, s) && s.stack == []
    requires forall n :: n in roots ==> Recorded(s, Dep(n, roots[n]), |s.finished|)
    ensures Consistent(reg, roots, s.selected)
    ensures forall n :: n in s.selected ==> Reached(reg, roots, s.selected, n)
    ensures Ordered(reg, s.selected, s.finished)
  {
    hide Reached, Chain, Contains, Within, AvailableVersions, Dependencies;
    forall n | n in roots
      ensures n in s.selected && Contains(roots[n], s.selected[n])
    {
      assert Recorded(s, Dep(n, roots[n]), |s.finished|);
      WithinContains(s.constraints[n], roots[n], s.selected[n]);
    }
    forall n, d | Edge(reg, s.selected, n, d)
      ensures d.name in s.selected && Contains(d.range, s.selected[d.name])
    {
      var k :| 0 <= k < |s.finished| && s.finished[k] == n;
      assert Settled(reg, s, k) && Recorded(s, d, k);
      WithinContains(s.constraints[d.name], d.range, s.selected[d.name]);
    }
    forall k, d | 0 <= k < |s.finished| && Edge(reg, s.selected, s.finished[k], d)
      ensures d.name in s.finished[..k]
    {
      assert Settled(reg, s, k) && Recorded(s, d, k);
    }
  }

  // So the selected packages have no dependency cycle.
  lemma {:induction false} NoCycle(reg: Registry, selected: map<string, Version>, order: seq<string>, path: seq<string>)
    requires Ordered(reg, selected, order) && |path| > 1
    requires forall i :: 0 <= i < |path| - 1 ==> EdgeTo(reg, selected, path[i], path[i + 1])
    ensures path[0] != path[|path| - 1]
  {
    hide Ordered, EdgeTo;
    forall i | 0 <= i < |path| - 1
      ensures Below(order, path[i], path[i + 1])
    {
      EdgeDescends(reg, selected, order, path[i], path[i + 1]);
    }
    Descends(order, path, |path| - 1);
  }

  function First(order: seq<string>, n: string): (k: nat)
    requires n in order
    ensures k < |order| && order[k] == n && n !in order[..k]
  {
    if order[0] == n then 0 else 1 + First(order[1..], n)
  }

  // m stands before n.
  predicate Below(order: seq<string>, n: string, m: string) {
    n in order && m in order && First(order, m) < First(order, n)
  }

  lemma EdgeDescends(reg: Registry, selected: map<string, Version>, order: seq<string>, n: string, m: string)
    requires Ordered(reg, selected, order) && EdgeTo(reg, selected, n, m)
    ensures Below(order, n, m)
  {
    var d :| Edge(reg, selected, n, d) && d.name == m;
    var k := First(order, n);
    assert m in order[..k];
    var j :| 0 <= j < k && order[j] == m;
    FirstLeast(order, m, j);
  }

  lemma {:induction false} FirstLeast(order: seq<string>, n: string, j: nat)
    requires j < |order| && order[j] == n
    ensures First(order, n) <= j
    decreases order
  {
    if order[0] != n {
      FirstLeast(order[1..], n, j - 1);
    }
  }

  lemma {:induction false} Descends(order: seq<string>, path: seq<string>, k: nat)
    requires 0 < k < |path|
    requires forall i :: 0 <= i < |path| - 1 ==> Below(order, path[i], path[i + 1])
    ensures Below(order, path[0], path[k])
  {
    assert Below(order, path[k - 1], path[k - 1 + 1]);
    if k > 1 {
      Descends(order, path, k - 1);
    }
  }

  /******* Where constraints come from *******/

  // r is asked of n by the manifest or by a selected release.
  ghost predicate Demanded(reg: Registry, roots: map<string, Range>, selected: map<string, Version>, n: string, r: Range) {
    (n in roots && roots[n] == r) || exists m :: Edge(reg, selected, m, Dep(n, r))
  }

  predicate MeetsAll(ds: seq<Range>, v: Version) {
    forall i :: 0 <= i < |ds| ==> Contains(ds[i], v)
  }

  ghost predicate AllDemanded(reg: Registry, roots: map<string, Range>, selected: map<string, Version>, n: string, ds: seq<Range>) {
    forall i :: 0 <= i < |ds| ==> Demanded(reg, roots, selected, n, ds[i])
  }

  // The constraint on n is exactly what these demands ask together.
  ghost predicate ExplainedBy(reg: Registry, roots: map<string, Range>, selected: map<string, Version>, n: string, c: Range, ds: seq<Range>) {
    AllDemanded(reg, roots, selected, n, ds) && forall v :: Contains(c, v) <==> MeetsAll(ds, v)
  }

  ghost predicate Exact(reg: Registry, roots: map<string, Range>, s: State) {
    forall n :: n in s.constraints ==> exists ds :: ExplainedBy(reg, roots, s.selected, n, s.constraints[n], ds)
  }

  lemma DemandedGrows(reg: Registry, roots: map<string, Range>, a: map<string, Version>, b: map<string, Version>, n: string, r: Range)
    requires Demanded(reg, roots, a, n, r) && (forall x :: x in a ==> x in b && b[x] == a[x])
    ensures Demanded(reg, roots, b, n, r)
  {
    if !(n in roots && roots[n] == r) {
      var m :| Edge(reg, a, m, Dep(n, r));
      assert Edge(reg, b, m, Dep(n, r));
    }
  }

  lemma ExplainedGrows(reg: Registry, roots: map<string, Range>, a: map<string, Version>, b: map<string, Version>, n: string, c: Range, ds: seq<Range>)
    requires ExplainedBy(reg, roots, a, n, c, ds) && (forall x :: x in a ==> x in b && b[x] == a[x])
    ensures ExplainedBy(reg, roots, b, n, c, ds)
  {
    hide Demanded, MeetsAll;
    forall i | 0 <= i < |ds|
      ensures Demanded(reg, roots, b, n, ds[i])
    {
      DemandedGrows(reg, roots, a, b, n, ds[i]);
    }
  }

  lemma ExactGrows(reg: Registry, roots: map<string, Range>, s: State, selected: map<string, Version>)
    requires Exact(reg, roots, s) && (forall x :: x in s.selected ==> x in selected && selected[x] == s.selected[x])
    ensures forall n :: n in s.constraints ==> exists ds :: ExplainedBy(reg, roots, selected, n, s.constraints[n], ds)
  {
    hide ExplainedBy;
    forall n | n in s.constraints
      ensures exists ds :: ExplainedBy(reg, roots, selected, n, s.constraints[n], ds)
    {
      var ds :| ExplainedBy(reg, roots, s.selected, n, s.constraints[n], ds);
      ExplainedGrows(reg, roots, s.selected, selected, n, s.constraints[n], ds);
    }
  }

  // The demands on n once r is added: together they are the tightened
  // constraint, or no version meets them all.
  lemma OneMoreDemand(reg: Registry, roots: map<string, Range>, s: State, n: string, r: Range) returns (ds: seq<Range>)
    requires Exact(reg, roots, s) && Demanded(reg, roots, s.selected, n, r)
    ensures AllDemanded(reg, roots, s.selected, n, ds)
    ensures match Tightened(s, n, r)
      case Some(c) => forall v :: Contains(c, v) <==> MeetsAll(ds, v)
      case None => forall v :: !MeetsAll(ds, v)
  {
    hide Demanded, Contains, Intersect;
    if n in s.constraints {
      var before :| ExplainedBy(reg, roots, s.selected, n, s.constraints[n], before);
      ds := before + [r];
      IntersectIsExact(s.constraints[n], r);
      forall v
        ensures MeetsAll(ds, v) <==> Contains(s.constraints[n], v) && Contains(r, v)
      {
        MeetsMore(before, r, v);
      }
    } else {
      ds := [r];
      MeetsOne(r);
    }
  }

  lemma MeetsOne(r: Range)
    ensures forall v :: MeetsAll([r], v) <==> Contains(r, v)
  {
    hide Contains;
    forall v
      ensures MeetsAll([r], v) <==> Contains(r, v)
    {
      assert [r][0] == r;
    }
  }

  lemma MeetsMore(ds: seq<Range>, r: Range, v: Version)
    ensures MeetsAll(ds + [r], v) <==> MeetsAll(ds, v) && Contains(r, v)
  {
    hide Contains;
    var more := ds + [r];
    assert more[|ds|] == r && forall i :: 0 <= i < |ds| ==> more[i] == ds[i];
  }

  lemma TightenExact(reg: Registry, roots: map<string, Range>, s: State, n: string, r: Range, joined: Range)
    requires Exact(reg, roots, s) && Demanded(reg, roots, s.selected, n, r) && Tightened(s, n, r) == Some(joined)
    ensures Exact(reg, roots, s.(constraints := s.constraints[n := joined]))
  {
    hide Demanded, Contains, MeetsAll, Tightened;
    var ds := OneMoreDemand(reg, roots, s, n, r);
    assert ExplainedBy(reg, roots, s.selected, n, joined, ds);
    hide ExplainedBy;
  }

  lemma {:induction false} WalkExact(reg: Registry, roots: map<string, Range>, s: State, name: string, r: Range)
    requires Inv(reg, roots, s) && MayGo(reg, roots, s, name) && Walk(reg, s, name, r).Done?
    requires Exact(reg, roots, s) && Demanded(reg, roots, s.selected, name, r)
    ensures Exact(reg, roots, Walk(reg, s, name, r).state)
    decreases |Free(reg, s)|, 0, 0
  {
    hide Inv, MayGo, Grows, WalkAll, Intersect, SelectLatest, AvailableVersions, Dependencies, Within, Contains, Demanded, Exact, Tightened;
    var joined := Tightened(s, name, r).value;
    TightenExact(reg, roots, s, name, r, joined);
    if name !in s.selected {
      var v := SelectLatest(joined, AvailableVersions(reg, name)).value;
      var t := Enter(s, name, joined, v);
      EnterReady(reg, roots, s, name, r);
      EnterExact(reg, roots, s, name, joined, v);
      FreeShrinks(reg, s, t);
      InReg(reg, name);
      DepsGo(reg, roots, t, name);
      DepsDemanded(reg, roots, t, name);
      WalkAllExact(reg, roots, t, Dependencies(reg, name, v), 0);
      LeaveExact(reg, roots, WalkAll(reg, t, Dependencies(reg, name, v), 0).state);
    }
  }

  lemma EnterExact(reg: Registry, roots: map<string, Range>, s: State, name: string, joined: Range, v: Version)
    requires Exact(reg, roots, s.(constraints := s.constraints[name := joined])) && name !in s.selected
    ensures Exact(reg, roots, Enter(s, name, joined, v))
  {
    hide ExplainedBy;
    ExactGrows(reg, roots, s.(constraints := s.constraints[name := joined]), s.selected[name := v]);
  }

  lemma LeaveExact(reg: Registry, roots: map<string, Range>, s: State)
    requires Exact(reg, roots, s) && s.stack != []
    ensures Exact(reg, roots, Leave(s))
  {
    hide ExplainedBy;
  }

  lemma DepsDemanded(reg: Registry, roots: map<string, Range>, t: State, name: string)
    requires name in t.selected
    ensures var ds := Dependencies(reg, name, t.selected[name]);
      forall j :: 0 <= j < |ds| ==> Demanded(reg, roots, t.selected, ds[j].name, ds[j].range)
  {
    var ds := Dependencies(reg, name, t.selected[name]);
    forall j | 0 <= j < |ds|
      ensures Demanded(reg, roots, t.selected, ds[j].name, ds[j].range)
    {
      assert Dep(ds[j].name, ds[j].range) == ds[j];
      assert Edge(reg, t.selected, name, Dep(ds[j].name, ds[j].range));
    }
  }

  lemma {:induction false} WalkAllExact(reg: Registry, roots: map<string, Range>, s: State, deps: seq<Dep>, i: nat)
    requires Inv(reg, roots, s) && i <= |deps| && WalkAll(reg, s, deps, i).Done? && Exact(reg, roots, s)
    requires forall j :: 0 <= j < |deps| ==> MayGo(reg, roots, s, deps[j].name)
    requires forall j :: 0 <= j < |deps| ==> Demanded(reg, roots, s.selected, deps[j].name, deps[j].range)
    ensures Exact(reg, roots, WalkAll(reg, s, deps, i).state)
    decreases |Free(reg, s)|, 1, |deps| - i
  {
    hide *;
    WalkAllUnfold(reg, s, deps, i);
    if i < |deps| {
      WalkKeeps(reg, roots, s, deps[i].name, deps[i].range);
      WalkExact(reg, roots, s, deps[i].name, deps[i].range);
      var t := Walk(reg, s, deps[i].name, deps[i].range).state;
      FreeShrinks(reg, s, t);
      DepsLater(reg, roots, s, t, deps);
      WalkAllExact(reg, roots, t, deps, i + 1);
    }
  }

  // What may be walked, and is demanded, stays so.
  lemma DepsLater(reg: Registry, roots: map<string, Range>, s: State, t: State, deps: seq<Dep>)
    requires Grows(s, t) && s.stack == t.stack
    requires forall j :: 0 <= j < |deps| ==> MayGo(reg, roots, s, deps[j].name)
    requires forall j :: 0 <= j < |deps| ==> Demanded(reg, roots, s.selected, deps[j].name, deps[j].range)
    ensures forall j :: 0 <= j < |deps| ==> MayGo(reg, roots, t, deps[j].name)
    ensures forall j :: 0 <= j < |deps| ==> Demanded(reg, roots, t.selected, deps[j].name, deps[j].range)
  {
    hide MayGo, Demanded, Grows;
    GrowsFacts(s, t);
    forall j | 0 <= j < |deps|
      ensures MayGo(reg, roots, t, deps[j].name) && Demanded(reg, roots, t.selected, deps[j].name, deps[j].range)
    {
      MayGoGrows(reg, roots, s, t, deps[j].name);
      DemandedGrows(reg, roots, s.selected, t.selected, deps[j].name, deps[j].range);
    }
  }

  /******* What errors mean *******/

  // The error names a real cycle of dependencies between published releases, a
  // package with no release, or a package on which the manifest and selected
  // releases make demands that the version selected for it, or every published
  // version, fails to meet.
  ghost predicate Genuine(reg: Registry, roots: map<string, Range>, e: Error) {
    match e
    case Cycle(path) =>
      && |path| > 1 && path[|path| - 1] in path[..|path| - 1]
      && exists selected :: Chain(reg, roots, selected, path) && Published(reg, selected)
    case Unknown(n) => AvailableVersions(reg, n) == []
    case NoMatch(n) => exists selected, ds :: Conflict(reg, roots, selected, n, ds)
  }

  ghost predicate Conflict(reg: Registry, roots: map<string, Range>, selected: map<string, Version>, n: string, ds: seq<Range>) {
    && Published(reg, selected) && AllDemanded(reg, roots, selected, n, ds)
    && (if n in selected then !MeetsAll(ds, selected[n]) else forall v :: v in AvailableVersions(reg, n) ==> !MeetsAll(ds, v))
  }

  ghost predicate Published(reg: Registry, selected: map<string, Version>) {
    forall n :: n in selected ==> selected[n] in AvailableVersions(reg, n)
  }

  lemma {:induction false} WalkFails(reg: Registry, roots: map<string, Range>, s: State, name: string, r: Range)
    requires Inv(reg, roots, s) && MayGo(reg, roots, s, name) && Walk(reg, s, name, r).Failed?
    requires Exact(reg, roots, s) && Demanded(reg, roots, s.selected, name, r)
    ensures Genuine(reg, roots, Walk(reg, s, name, r).error)
    decreases |Free(reg, s)|, 0, 0
  {
    hide Inv, MayGo, Grows, WalkAll, Intersect, SelectLatest, AvailableVersions, Dependencies, Within, Contains, Chain, Published,
      Demanded, Exact, Tightened, Conflict;
    if name in s.stack {
      CycleIsReal(reg, roots, s, name);
    } else {
      var joined := Tightened(s, name, r);
      var avail := AvailableVersions(reg, name);
      if joined.Some? && name !in s.selected && avail != [] && SelectLatest(joined.value, avail).Some? {
        var v := SelectLatest(joined.value, avail).value;
        var t := Enter(s, name, joined.value, v);
        EnterReady(reg, roots, s, name, r);
        TightenExact(reg, roots, s, name, r, joined.value);
        EnterExact(reg, roots, s, name, joined.value, v);
        FreeShrinks(reg, s, t);
        InReg(reg, name);
        DepsGo(reg, roots, t, name);
        DepsDemanded(reg, roots, t, name);
        WalkAllFails(reg, roots, t, Dependencies(reg, name, v), 0);
      } else if avail != [] || name in s.selected || joined.None? {
        ConflictIsReal(reg, roots, s, name, r);
      }
    }
  }

  lemma ConflictIsReal(reg: Registry, roots: map<string, Range>, s: State, name: string, r: Range)
    requires Inv(reg, roots, s) && Exact(reg, roots, s) && Demanded(reg, roots, s.selected, name, r)
    requires var joined := Tightened(s, name, r);
      joined.None? ||
      (if name in s.selected then !Contains(joined.value, s.selected[name])
       else SelectLatest(joined.value, AvailableVersions(reg, name)).None?)
    ensures exists selected, ds :: Conflict(reg, roots, selected, name, ds)
  {
    hide Demanded, Contains, MeetsAll, Tightened, SelectLatest, AvailableVersions, AllDemanded, Exact, Inv;
    InvPublished(reg, roots, s);
    var ds := OneMoreDemand(reg, roots, s, name, r);
    var joined := Tightened(s, name, r);
    if joined.Some? {
      LatestIsLargest(joined.value, AvailableVersions(reg, name));
    }
    assert Conflict(reg, roots, s.selected, name, ds);
  }

  lemma InvPublished(reg: Registry, roots: map<string, Range>, s: State)
    requires Inv(reg, roots, s)
    ensures Published(reg, s.selected)
  {
    hide Settled, Reached, Contains, Within, Chain, AvailableVersions;
  }

  lemma CycleIsReal(reg: Registry, roots: map<string, Range>, s: State, name: string)
    requires Inv(reg, roots, s) && MayGo(reg, roots, s, name) && name in s.stack
    ensures Genuine(reg, roots, Cycle(s.stack + [name]))
  {
    hide Settled, Reached, Contains, Within, EdgeTo, AvailableVersions, MayGo, Chain;
    GoingReaches(reg, roots, s, name);
    var path := s.stack + [name];
    assert path[..|path| - 1] == s.stack;
    assert Chain(reg, roots, s.selected, path) && Published(reg, s.selected);
  }

  // Going into a package keeps the invariant.
  lemma EnterReady(reg: Registry, roots: map<string, Range>, s: State, name: string, r: Range)
    requires Inv(reg, roots, s) && MayGo(reg, roots, s, name) && name !in s.stack && name !in s.selected
    requires Tightened(s, name, r).Some? && SelectLatest(Tightened(s, name, r).value, AvailableVersions(reg, name)).Some?
    ensures var joined := Tightened(s, name, r).value;
      Inv(reg, roots, Enter(s, name, joined, SelectLatest(joined, AvailableVersions(reg, name)).value))
  {
    hide Inv, MayGo, Grows, Intersect, SelectLatest, AvailableVersions, Within, Contains;
    var joined := Tightened(s, name, r).value;
    var avail := AvailableVersions(reg, name);
    var v := SelectLatest(joined, avail).value;
    LatestIsLargest(joined, avail);
    TightenKeeps(reg, roots, s, name, r, joined);
    var s1 := s.(constraints := s.constraints[name := joined]);
    MayGoGrows(reg, roots, s, s1, name);
    EnterKeeps(reg, roots, s1, name, v);
    assert Enter(s, name, joined, v) == s1.(selected := s1.selected[name := v], stack := s1.stack + [name]);
  }

  lemma {:induction false} WalkAllFails(reg: Registry, roots: map<string, Range>, s: State, deps: seq<Dep>, i: nat)
    requires Inv(reg, roots, s) && i <= |deps| && WalkAll(reg, s, deps, i).Failed? && Exact(reg, roots, s)
    requires forall j :: 0 <= j < |deps| ==> MayGo(reg, roots, s, deps[j].name)
    requires forall j :: 0 <= j < |deps| ==> Demanded(reg, roots, s.selected, deps[j].name, deps[j].range)
    ensures Genuine(reg, roots, WalkAll(reg, s, deps, i).error)
    decreases |Free(reg, s)|, 1, |deps| - i
  {
    hide *;
    WalkAllUnfold(reg, s, deps, i);
    if i < |deps| {
      var o := Walk(reg, s, deps[i].name, deps[i].range);
      if o.Failed? {
        WalkFails(reg, roots, s, deps[i].name, deps[i].range);
      } else {
        WalkKeeps(reg, roots, s, deps[i].name, deps[i].range);
        WalkExact(reg, roots, s, deps[i].name, deps[i].range);
        var t := o.state;
        FreeShrinks(reg, s, t);
        DepsLater(reg, roots, s, t, deps);
        WalkAllFails(reg, roots, t, deps, i + 1);
      }
    }
  }

  lemma StartExact(reg: Registry, roots: map<string, Range>)
    ensures Exact(reg, roots, Start(roots))
  {
    forall n | n in roots
      ensures exists ds :: ExplainedBy(reg, roots, map[], n, roots[n], ds)
    {
      MeetsOne(roots[n]);
      assert ExplainedBy(reg, roots, map[], n, roots[n], [roots[n]]);
    }
  }

  lemma ErrorsAreGenuine(reg: Registry, roots: map<string, Range>, order: seq<string>)
    requires (forall i :: 0 <= i < |order| ==> order[i] in roots) && Resolve(reg, roots, order).Failed?
    ensures Genuine(reg, roots, Resolve(reg, roots, order).error)
  {
    StartKeeps(reg, roots);
    StartExact(reg, roots);
    WalkAllFails(reg, roots, Start(roots), RootDeps(roots, order), 0);
  }
}
