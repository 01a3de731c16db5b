// The pass manifest: registration, validation by Kahn's algorithm over
// in-degrees with a sorted ready queue, and the validated order.
module PassManifest {
  import opened PassGraph

  datatype Option<+T> = None | Some(value: T)

  datatype ManifestError = UnknownInput(pass: string, input: string) | HasCycle(resolved: nat, total: nat)

  /******* Sorting names *******/

  predicate SortedNames(s: seq<string>) {
    forall i, j :: 0 <= i < j < |s| ==> s[i] == s[j] || Less(s[i], s[j])
  }

  function Insert(x: string, s: seq<string>): (r: seq<string>)
    ensures multiset(r) == multiset(s) + multiset{x}
  {
    if s == [] then [x]
    else if Less(s[0], x) then
      assert s == [s[0]] + s[1..];
      [s[0]] + Insert(x, s[1..])
    else [x] + s
  }

  function Sort(s: seq<string>): (r: seq<string>)
    ensures multiset(r) == multiset(s)
  {
    if s == [] then []
    else
      assert s == [s[0]] + s[1..];
      Insert(s[0], Sort(s[1..]))
  }

  lemma SameMembers(a: seq<string>, b: seq<string>)
    requires multiset(a) == multiset(b)
    ensures forall x :: x in a <==> x in b
  {
    forall x ensures x in a <==> x in b
    {
      assert x in a <==> x in multiset(a);
      assert x in b <==> x in multiset(b);
    }
  }

  lemma {:induction false} InsertSorts(x: string, s: seq<string>)
    requires SortedNames(s)
    ensures SortedNames(Insert(x, s))
  {
    if s != [] {
      LessTotal(x, s[0]);
      if Less(s[0], x) {
        var rest := Insert(x, s[1..]);
        InsertSorts(x, s[1..]);
        SameMembers(rest, s[1..] + [x]);
        forall i | 0 <= i < |rest|
          ensures s[0] == rest[i] || Less(s[0], rest[i])
        {
          assert rest[i] in s[1..] + [x];
        }
      } else {
        forall i | 0 <= i < |s|
          ensures x == s[i] || Less(x, s[i])
        {
          if x != s[0] && i > 0 && s[0] != s[i] {
            LessTrans(x, s[0], s[i]);
          }
        }
      }
    }
  }

  lemma {:induction false} SortSorts(s: seq<string>)
    ensures SortedNames(Sort(s))
  {
    if s != [] {
      SortSorts(s[1..]);
      InsertSorts(s[0], Sort(s[1..]));
    }
  }

  lemma DistinctByCount(s: seq<string>)
    ensures Distinct(s) <==> forall x :: multiset(s)[x] <= 1
  {
    if Distinct(s) {
      CountOne(s);
    } else {
      var i, j :| 0 <= i < j < |s| && s[i] == s[j];
      assert s == s[..i] + [s[i]] + s[i + 1..j] + [s[j]] + s[j + 1..];
      assert multiset(s)[s[i]] >= 2;
    }
  }

  lemma {:induction false} CountOne(s: seq<string>)
    requires Distinct(s)
    ensures forall x :: multiset(s)[x] <= 1
  {
    if s != [] {
      var front := s[..|s| - 1];
      CountOne(front);
      assert s == front + [s[|s| - 1]];
      assert s[|s| - 1] !in front;
    }
  }

  // Sorting keeps distinct names distinct and puts the least one first.
  lemma SortedReady(s: seq<string>)
    requires Distinct(s)
    ensures Distinct(Sort(s)) && Elements(Sort(s)) == Elements(s)
    ensures s != [] ==> Sort(s) != [] && Elements(s) != {} && Sort(s)[0] == Least(Elements(s))
  {
    var r := Sort(s);
    SortSorts(s);
    SameMembers(r, s);
    DistinctByCount(s);
    DistinctByCount(r);
    assert forall x :: x in Elements(r) <==> x in r;
    assert forall x :: x in Elements(s) <==> x in s;
    if s != [] {
      assert s[0] in r && s[0] in Elements(s);
      var m := Least(Elements(s));
      assert m in r && r[0] in Elements(s);
      var k :| 0 <= k < |r| && r[k] == m;
      if r[0] != m {
        assert Less(r[0], r[k]) && Less(m, r[0]);
        LessTrans(m, r[0], m);
        LessIrreflexive(m);
      }
    }
  }

  /******* In-degrees *******/

  // How many inputs, repetitions counted, are not done.
  function Missing(xs: seq<string>, done: seq<string>): nat {
    if xs == [] then 0
    else Missing(xs[..|xs| - 1], done) + if xs[|xs| - 1] in done then 0 else 1
  }

  lemma {:induction false} MissingNone(xs: seq<string>, done: seq<string>)
    ensures Missing(xs, done) == 0 <==> forall i :: 0 <= i < |xs| ==> xs[i] in done
  {
    if xs != [] {
      var front := xs[..|xs| - 1];
      MissingNone(front, done);
      assert forall i :: 0 <= i < |front| ==> front[i] == xs[i];
    }
  }

  lemma {:induction false} MissingStart(xs: seq<string>)
    ensures Missing(xs, []) == |xs|
  {
    if xs != [] {
      MissingStart(xs[..|xs| - 1]);
    }
  }

  lemma {:induction false} MissingNext(xs: seq<string>, done: seq<string>, n: string)
    requires n !in done
    ensures Missing(xs, done) == Missing(xs, done + [n]) + multiset(xs)[n]
  {
    if xs != [] {
      var front := xs[..|xs| - 1];
      MissingNext(front, done, n);
      assert xs == front + [xs[|xs| - 1]];
    }
  }

  lemma ReadyByMissing(g: Graph, done: seq<string>, n: string)
    requires n in g
    ensures n in Ready(g, done) <==> n !in done && Missing(g[n], done) == 0
  {
    MissingNone(g[n], done);
  }

  // A pass already listed, or the one being listed, does not read the latter.
  lemma DoneDoesNotRead(g: Graph, done: seq<string>, next: string, n: string)
    requires Progress(g, done) && next in Ready(g, done) && n in done + [next]
    ensures n in g && multiset(g[n])[next] == 0
  {
    var k := |done|;
    if n != next {
      k :| 0 <= k < |done| && done[k] == n;
    }
    assert InputsIn(g, n, done[..k]);
    forall i | 0 <= i < |g[n]|
      ensures g[n][i] != next
    {
      assert g[n][i] in done[..k];
      assert g[n][i] in done;
    }
    assert next !in g[n];
  }

  function ReadersOf(adj: map<string, seq<string>>, x: string): seq<string> {
    if x in adj then adj[x] else []
  }

  // How often n stands among the readers of x.
  function Readers(adj: map<string, seq<string>>, x: string, n: string): nat {
    multiset(ReadersOf(adj, x))[n]
  }

  function Count(xs: seq<string>, x: string): nat {
    multiset(xs)[x]
  }

  lemma AddReader(adj: map<string, seq<string>>, inp: string, name: string)
    ensures var more := adj[inp := ReadersOf(adj, inp) + [name]];
      forall x, n :: Readers(more, x, n) == Readers(adj, x, n) + (if x == inp && n == name then 1 else 0)
  {
  }

  lemma CountMore(xs: seq<string>, i: nat)
    requires i < |xs|
    ensures forall x :: Count(xs[..i + 1], x) == Count(xs[..i], x) + (if x == xs[i] then 1 else 0)
    ensures forall x :: Count([], x) == 0
  {
    assert xs[..i + 1] == xs[..i] + [xs[i]];
  }

  // The adjacency lists say who reads what, repetitions counted.
  ghost predicate Listed(g: Graph, adj: map<string, seq<string>>) {
    forall x, n :: Readers(adj, x, n) == if n in g then Count(g[n], x) else 0
  }

  // For the passes of `seen`, the adjacency lists count who reads what and
  // the in-degrees count inputs.
  ghost predicate Counted(g: Graph, seen: set<string>, adj: map<string, seq<string>>, indeg: map<string, int>) {
    && seen <= g.Keys && indeg.Keys == seen
    && (forall n :: n in seen ==> indeg[n] == |g[n]|)
    && (forall x, n :: Readers(adj, x, n) == if n in seen then Count(g[n], x) else 0)
  }

  class Manifest {
    var byName: Graph
    var order: seq<string>
    var built: bool

    constructor ()
      ensures Valid() && byName == map[] && !built
    {
      byName, order, built := map[], [], false;
    }

    // A validated order is the least topological order of the passes.
    ghost predicate Valid()
      reads this
    {
      built ==> Known(byName) && Topological(byName, order) && forall other :: Topological(byName, other) ==> LexBefore(order, other)
    }

    // ok is false where the source panics: the name is taken.
    method Register(name: string, inputs: seq<string>) returns (ok: bool)
      requires Valid()
      modifies this
      ensures Valid() && ok == (name !in old(byName))
      ensures if ok then byName == old(byName)[name := inputs] && !built else byName == old(byName) && built == old(built)
      ensures order == old(order)
    {
      ok := name !in byName;
      if ok {
        byName := byName[name := inputs];
        built := false;
      }
    }

    // The first unknown input met, whatever the map's iteration order.
    method CheckInputs() returns (err: Option<ManifestError>)
      ensures err.None? <==> Known(byName)
      ensures err.Some? ==>
        && err.value.UnknownInput? && err.value.pass in byName
        && err.value.input in byName[err.value.pass] && err.value.input !in byName
    {
      var todo := byName.Keys;
      while todo != {}
        invariant todo <= byName.Keys
        invariant forall n, i :: n in byName && n !in todo && 0 <= i < |byName[n]| ==> byName[n][i] in byName
        decreases |todo|
      {
        var name :| name in todo;
        var i := 0;
        while i < |byName[name]|
          invariant 0 <= i <= |byName[name]|
          invariant forall k :: 0 <= k < i ==> byName[name][k] in byName
        {
          if byName[name][i] !in byName {
            return Some(UnknownInput(name, byName[name][i]));
          }
          i := i + 1;
        }
        todo := todo - {name};
      }
      return None;
    }

    method CountInputs() returns (adj: map<string, seq<string>>, indeg: map<string, int>)
      ensures Counted(byName, byName.Keys, adj, indeg) && Listed(byName, adj)
    {
      adj, indeg := map[], map[];
      var todo := byName.Keys;
      while todo != {}
        invariant todo <= byName.Keys && Counted(byName, byName.Keys - todo, adj, indeg)
        decreases |todo|
      {
        hide Readers, Count;
        var name :| name in todo;
        var d;
        adj, d := AddReaders(adj, name, byName[name]);
        indeg := indeg[name := d];
        todo := todo - {name};
      }
    }

    // Succeeds exactly when every input is a pass and the graph has no cycle;
    // the order is then the least topological order. A failure changes nothing.
    method Validate() returns (err: Option<ManifestError>)
      requires Valid()
      modifies this`order, this`built
      ensures Valid() && (err.None? <==> Known(byName) && !Cyclic(byName))
      ensures err.None? ==> built && order == Kahn(byName, [])
      ensures err.Some? ==> built == old(built) && order == old(order)
    {
      err := CheckInputs();
      if err.Some? {
        return;
      }
      var adj, indeg := CountInputs();
      var done := KahnOrder(byName, adj, indeg);
      KahnCompleteIff(byName);
      if |done| != |byName.Keys| {
        return Some(HasCycle(|done|, |byName.Keys|));
      }
      order, built := done, true;
      forall other | Topological(byName, other)
        ensures LexBefore(order, other)
      {
        KahnIsLeast(byName, other);
      }
    }
  }

  // The passes without inputs.
  method Roots(indeg: map<string, int>) returns (ready: seq<string>)
    ensures Distinct(ready) && forall n :: n in ready <==> n in indeg && indeg[n] == 0
  {
    ready := [];
    var todo := indeg.Keys;
    while todo != {}
      invariant todo <= indeg.Keys && Distinct(ready)
      invariant forall n :: n in ready <==> n in indeg && n !in todo && indeg[n] == 0
      decreases |todo|
    {
      var name :| name in todo;
      if indeg[name] == 0 {
        ready := ready + [name];
      }
      todo := todo - {name};
    }
  }

  // The queue loop.
  method KahnOrder(g: Graph, adj: map<string, seq<string>>, indeg0: map<string, int>) returns (done: seq<string>)
    requires Counted(g, g.Keys, adj, indeg0) && Listed(g, adj)
    ensures done == Kahn(g, [])
  {
    var indeg := indeg0;
    var ready := Roots(indeg);
    FirstQueue(g, adj, indeg, ready);
    hide *;
    ResortQueue(g, [], indeg, ready);
    ready := Sort(ready);
    done := [];
    while ready != []
      invariant Progress(g, done) && Queued(g, done, indeg, ready) && SortedNames(ready)
      invariant Kahn(g, done) == Kahn(g, [])
      decreases |g.Keys| - |done|
    {
      var next := ready[0];
      var readers := Sort(ReadersOf(adj, next));
      NextIsLeast(g, done, indeg, ready);
      ReadersCount(g, adj, next);
      StartDraining(g, done, indeg, ready, readers);
      KahnUnfold(g, done);
      done := done + [next];
      ProgressBound(g, done);
      indeg, ready := Drain(g, done, readers, indeg, ready[1..]);
      ResortQueue(g, done, indeg, ready);
      SortSorts(ready);
      ready := Sort(ready);
    }
    QueuedReady(g, done, indeg, ready);
    NothingReady(g, done);
  }

  lemma NothingReady(g: Graph, done: seq<string>)
    requires Progress(g, done) && Ready(g, done) == Elements([])
    ensures Kahn(g, done) == done
  {
  }

  // One pass is done: each of its readers waits for one input less.
  method Drain(g: Graph, ghost done: seq<string>, readers: seq<string>, indeg0: map<string, int>, ready0: seq<string>)
    returns (indeg: map<string, int>, ready: seq<string>)
    requires Draining(g, done, readers, indeg0, ready0)
    ensures Queued(g, done, indeg, ready)
  {
    hide *;
    indeg, ready := indeg0, ready0;
    var j := 0;
    assert readers[0..] == readers;
    while j < |readers|
      invariant 0 <= j <= |readers|
      invariant Draining(g, done, readers[j..], indeg, ready)
    {
      DrainOne(g, done, readers[j..], indeg, ready);
      assert readers[j..][1..] == readers[j + 1..];
      var dep := readers[j];
      indeg := indeg[dep := indeg[dep] - 1];
      if indeg[dep] == 0 {
        ready := ready + [dep];
      }
      j := j + 1;
    }
    QueueAgain(g, done, readers[j..], indeg, ready);
  }

  lemma FirstQueue(g: Graph, adj: map<string, seq<string>>, indeg: map<string, int>, ready: seq<string>)
    requires Counted(g, g.Keys, adj, indeg) && Distinct(ready) && forall n :: n in ready <==> n in indeg && indeg[n] == 0
    ensures Queued(g, [], indeg, ready) && Progress(g, []) && SortedNames(Sort(ready))
  {
    forall n | n in g
      ensures indeg[n] == Missing(g[n], [])
    {
      MissingStart(g[n]);
    }
    SortSorts(ready);
  }

  lemma NextIsLeast(g: Graph, done: seq<string>, indeg: map<string, int>, ready: seq<string>)
    requires Queued(g, done, indeg, ready) && ready != [] && SortedNames(ready)
    ensures Ready(g, done) != {} && ready[0] == Least(Ready(g, done))
  {
    QueuedReady(g, done, indeg, ready);
    assert ready[0] in Elements(ready);
    var m := Least(Elements(ready));
    var k :| 0 <= k < |ready| && ready[k] == m;
    if ready[0] != m {
      assert Less(ready[0], ready[k]) && Less(m, ready[0]);
      LessTrans(m, ready[0], m);
      LessIrreflexive(m);
    }
  }

  lemma ReadersCount(g: Graph, adj: map<string, seq<string>>, next: string)
    requires Listed(g, adj)
    ensures forall n :: Count(Sort(ReadersOf(adj, next)), n) == if n in g then Count(g[n], next) else 0
  {
    forall n
      ensures Count(Sort(ReadersOf(adj, next)), n) == if n in g then Count(g[n], next) else 0
    {
      assert Readers(adj, next, n) == if n in g then Count(g[n], next) else 0;
    }
  }

  lemma QueueAgain(g: Graph, done: seq<string>, todo: seq<string>, indeg: map<string, int>, ready: seq<string>)
    requires Draining(g, done, todo, indeg, ready) && todo == []
    ensures Queued(g, done, indeg, ready)
  {
  }

  // One more reader for each of the inputs, and their number.
  method AddReaders(adj0: map<string, seq<string>>, name: string, inputs: seq<string>)
    returns (adj: map<string, seq<string>>, d: int)
    ensures forall x, n :: Readers(adj, x, n) == Readers(adj0, x, n) + (if n == name then Count(inputs, x) else 0)
    ensures d == |inputs|
  {
    adj, d := adj0, 0;
    var i := 0;
    assert inputs[..0] == [];
    assert forall x :: Count([], x) == 0;
    while i < |inputs|
      invariant 0 <= i <= |inputs| && d == i
      invariant forall x, n :: Readers(adj, x, n) == Readers(adj0, x, n) + (if n == name then Count(inputs[..i], x) else 0)
    {
      AddReader(adj, inputs[i], name);
      CountMore(inputs, i);
      adj := adj[inputs[i] := ReadersOf(adj, inputs[i]) + [name]];
      d := d + 1;
      i := i + 1;
    }
    assert inputs[..i] == inputs;
  }

  /******* The ready queue *******/

  // While the readers of the pass just listed are being updated: todo are the
  // readers still to come.
  ghost predicate Draining(g: Graph, done: seq<string>, todo: seq<string>, indeg: map<string, int>, ready: seq<string>) {
    && indeg.Keys == g.Keys && Distinct(ready)
    && (forall n :: n in g ==> indeg[n] == Missing(g[n], done) + Count(todo, n))
    && (forall n :: n in ready <==> n in g && n !in done && indeg[n] == 0)
    && (forall n :: n in todo ==> n in g && n !in done)
  }

  // The counts agree with what is done.
  ghost predicate Queued(g: Graph, done: seq<string>, indeg: map<string, int>, ready: seq<string>) {
    Draining(g, done, [], indeg, ready)
  }

  lemma QueuedReady(g: Graph, done: seq<string>, indeg: map<string, int>, ready: seq<string>)
    requires Queued(g, done, indeg, ready)
    ensures Elements(ready) == Ready(g, done)
  {
    hide Missing;
    forall n ensures n in Elements(ready) <==> n in Ready(g, done)
    {
      assert n in Elements(ready) <==> n in ready;
      if n in g {
        ReadyByMissing(g, done, n);
      }
    }
  }

  // The least ready pass is listed and its readers are about to be updated.
  lemma StartDraining(g: Graph, done: seq<string>, indeg: map<string, int>, ready: seq<string>, readers: seq<string>)
    requires Progress(g, done) && Queued(g, done, indeg, ready) && ready != []
    requires forall n :: Count(readers, n) == if n in g then Count(g[n], ready[0]) else 0
    ensures Draining(g, done + [ready[0]], readers, indeg, ready[1..])
  {
    hide Queued, Missing, Elements, Ready, Progress;
    var next := ready[0];
    var more := done + [next];
    QueuedReady(g, done, indeg, ready);
    QueuedCounts(g, done, indeg, ready);
    NextReady(ready);
    forall n | n in g
      ensures indeg[n] == Missing(g[n], more) + Count(readers, n)
    {
      MissingNext(g[n], done, next);
    }
    forall n | n in readers
      ensures n in g && n !in more
    {
      assert Count(readers, n) > 0;
      if n in more {
        DoneDoesNotRead(g, done, next, n);
      }
    }
    forall n
      ensures n in ready[1..] <==> n in g && n !in more && indeg[n] == 0
    {
      assert n in more <==> n in done || n == next;
    }
    hide Count;
  }

  lemma NextReady(ready: seq<string>)
    requires ready != [] && Distinct(ready)
    ensures ready[0] in Elements(ready) && Distinct(ready[1..])
    ensures forall n :: n in ready[1..] <==> n in ready && n != ready[0]
  {
    assert ready == [ready[0]] + ready[1..];
  }

  lemma QueuedCounts(g: Graph, done: seq<string>, indeg: map<string, int>, ready: seq<string>)
    requires Queued(g, done, indeg, ready)
    ensures indeg.Keys == g.Keys && Distinct(ready)
    ensures forall n :: n in g ==> indeg[n] == Missing(g[n], done)
    ensures forall n :: n in ready <==> n in g && n !in done && indeg[n] == 0
  {
    assert forall n :: Count([], n) == 0;
  }

  // One reader updated.
  lemma DrainOne(g: Graph, done: seq<string>, todo: seq<string>, indeg: map<string, int>, ready: seq<string>)
    requires Draining(g, done, todo, indeg, ready) && todo != []
    ensures todo[0] in indeg && indeg[todo[0]] > 0
    ensures var indeg2 := indeg[todo[0] := indeg[todo[0]] - 1];
      Draining(g, done, todo[1..], indeg2, if indeg2[todo[0]] == 0 then ready + [todo[0]] else ready)
  {
    hide Missing;
    var dep := todo[0];
    assert todo == [dep] + todo[1..];
    assert Count(todo, dep) == 1 + Count(todo[1..], dep);
    assert forall n :: n != dep ==> Count(todo, n) == Count(todo[1..], n);
    assert dep !in ready;
  }

  lemma ResortQueue(g: Graph, done: seq<string>, indeg: map<string, int>, ready: seq<string>)
    requires Queued(g, done, indeg, ready)
    ensures Queued(g, done, indeg, Sort(ready))
  {
    hide Missing, Count;
    SortedReady(ready);
    SameMembers(Sort(ready), ready);
  }
}
