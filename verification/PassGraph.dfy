// The pass graph: its topological orders, and the one the manifest computes.
module PassGraph {
  // Each pass with the passes whose outputs it reads.
  type Graph = map<string, seq<string>>

  /******* Names in lexicographic order *******/

  predicate Less(a: string, b: string) {
    b != "" && (a == "" || a[0] < b[0] || (a[0] == b[0] && Less(a[1..], b[1..])))
  }

  // The order of dictionaries: the shorter of the two is where they part, or
  // has the smaller character there.
  predicate PartAt(a: string, b: string, k: nat) {
    k <= |a| && k < |b| && a[..k] == b[..k] && (k == |a| || a[k] < b[k])
  }

  lemma {:induction false} LessIff(a: string, b: string)
    ensures Less(a, b) <==> exists k: nat :: PartAt(a, b, k)
  {
    if Less(a, b) {
      var k := Parting(a, b);
    }
    forall k: nat | PartAt(a, b, k)
      ensures Less(a, b)
    {
      PartingIsLess(a, b, k);
    }
  }

  lemma {:induction false} Parting(a: string, b: string) returns (k: nat)
    requires Less(a, b)
    ensures PartAt(a, b, k)
  {
    if a == "" || a[0] < b[0] {
      k := 0;
    } else {
      var j := Parting(a[1..], b[1..]);
      k := j + 1;
      assert a[..k] == [a[0]] + a[1..][..j] && b[..k] == [b[0]] + b[1..][..j];
    }
  }

  lemma {:induction false} PartingIsLess(a: string, b: string, k: nat)
    requires PartAt(a, b, k)
    ensures Less(a, b)
  {
    if k > 0 {
      assert a[0] == a[..k][0] && b[0] == b[..k][0];
      assert a[1..][..k - 1] == a[..k][1..] && b[1..][..k - 1] == b[..k][1..];
      PartingIsLess(a[1..], b[1..], k - 1);
    }
  }

  lemma {:induction false} LessIrreflexive(a: string)
    ensures !Less(a, a)
  {
    if a != "" {
      LessIrreflexive(a[1..]);
    }
  }

  lemma {:induction false} LessTrans(a: string, b: string, c: string)
    requires Less(a, b) && Less(b, c)
    ensures Less(a, c)
  {
    if a != "" && a[0] == b[0] && b[0] == c[0] {
      LessTrans(a[1..], b[1..], c[1..]);
    }
  }

  lemma {:induction false} LessTotal(a: string, b: string)
    ensures a == b || Less(a, b) || Less(b, a)
  {
    if a != "" && b != "" && a[0] == b[0] {
      LessTotal(a[1..], b[1..]);
      assert a == [a[0]] + a[1..] && b == [b[0]] + b[1..];
    }
  }

  ghost function Least(s: set<string>): (m: string)
    requires s != {}
    ensures m in s && forall x :: x in s ==> x == m || Less(m, x)
    decreases |s|
  {
    var x :| x in s;
    if s == {x} then x
    else
      var m := Least(s - {x});
      LessTotal(x, m);
      LeastStep(s, x, m);
      if Less(x, m) then x else m
  }

  lemma LeastStep(s: set<string>, x: string, m: string)
    requires x in s && m in s && x != m && forall y :: y in s - {x} ==> y == m || Less(m, y)
    ensures Less(x, m) ==> forall y :: y in s ==> y == x || Less(x, y)
    ensures !Less(x, m) ==> forall y :: y in s ==> y == m || Less(m, y)
  {
    LessTotal(x, m);
    if Less(x, m) {
      forall y | y in s && y != x
        ensures Less(x, y)
      {
        if y != m {
          LessTrans(x, m, y);
        }
      }
    }
  }

  /******* Orders *******/

  predicate InputsIn(g: Graph, n: string, done: seq<string>)
    requires n in g
  {
    forall i :: 0 <= i < |g[n]| ==> g[n][i] in done
  }

  // Every input is a pass.
  predicate Known(g: Graph) {
    forall n, i :: n in g && 0 <= i < |g[n]| ==> g[n][i] in g
  }

  predicate Distinct(s: seq<string>) {
    forall i, j :: 0 <= i < j < |s| ==> s[i] != s[j]
  }

  // Distinct passes, each after all its inputs.
  predicate Progress(g: Graph, order: seq<string>) {
    && Distinct(order)
    && (forall k :: 0 <= k < |order| ==> order[k] in g && InputsIn(g, order[k], order[..k]))
  }

  predicate Topological(g: Graph, order: seq<string>) {
    Progress(g, order) && forall n :: n in g ==> n in order
  }

  // The passes that can run next.
  ghost function Ready(g: Graph, done: seq<string>): set<string> {
    set n | n in g && n !in done && InputsIn(g, n, done)
  }

  // Kahn's algorithm with the least ready name first.
  ghost function Kahn(g: Graph, done: seq<string>): (order: seq<string>)
    requires Progress(g, done)
    ensures Progress(g, order) && |done| <= |order| && order[..|done|] == done && Ready(g, order) == {}
    decreases |g.Keys| - |done|
  {
    if Ready(g, done) == {} then done
    else
      var n := Least(Ready(g, done));
      ProgressStep(g, done, n);
      ProgressBound(g, done + [n]);
      var order := Kahn(g, done + [n]);
      assert order[..|done|] == order[..|done| + 1][..|done|];
      order
  }

  lemma ProgressStep(g: Graph, done: seq<string>, n: string)
    requires Progress(g, done) && n in Ready(g, done)
    ensures Progress(g, done + [n])
  {
    var next := done + [n];
    forall k | 0 <= k < |next|
      ensures next[k] in g && InputsIn(g, next[k], next[..k])
    {
      if k < |done| {
        assert next[..k] == done[..k];
      } else {
        assert next[..k] == done;
      }
    }
  }

  function Elements(s: seq<string>): set<string> {
    set i | 0 <= i < |s| :: s[i]
  }

  lemma {:induction false} DistinctSize(s: seq<string>)
    requires Distinct(s)
    ensures |Elements(s)| == |s|
  {
    if s != [] {
      var front := s[..|s| - 1];
      var last := s[|s| - 1];
      DistinctSize(front);
      assert Elements(s) == Elements(front) + {last};
      assert last !in Elements(front);
    }
  }

  lemma SubsetSize<T>(a: set<T>, b: set<T>)
    requires a <= b
    ensures |a| <= |b| && (|a| == |b| ==> a == b)
  {
    if x :| x in b && x !in a {
      SubsetSize(a, b - {x});
    } else {
      assert a == b;
    }
  }

  // An order never lists more passes than there are; it lists as many exactly
  // when it lists all.
  lemma ProgressBound(g: Graph, order: seq<string>)
    requires Progress(g, order)
    ensures |order| <= |g.Keys|
    ensures |order| == |g.Keys| <==> Topological(g, order)
  {
    DistinctSize(order);
    assert Elements(order) <= g.Keys;
    SubsetSize(Elements(order), g.Keys);
    if Topological(g, order) {
      assert Elements(order) == g.Keys;
    }
    if |order| == |g.Keys| {
      forall n | n in g
        ensures n in order
      {
        assert n in Elements(order);
      }
    }
  }

  /******* Cycles *******/

  // A walk along inputs: each pass reads the one before it.
  predicate Path(g: Graph, path: seq<string>) {
    && (forall i :: 0 <= i < |path| ==> path[i] in g)
    && (forall i :: 0 <= i < |path| - 1 ==> Reads(g, path[i + 1], path[i]))
  }

  predicate Reads(g: Graph, n: string, m: string) {
    n in g && m in g[n]
  }

  ghost predicate Cyclic(g: Graph) {
    exists path :: |path| > 1 && Path(g, path) && path[0] == path[|path| - 1]
  }

  function IndexOf(order: seq<string>, n: string): (k: nat)
    requires n in order
    ensures k < |order| && order[k] == n
  {
    if order[0] == n then 0 else 1 + IndexOf(order[1..], n)
  }

  lemma {:induction false} PathRises(g: Graph, order: seq<string>, path: seq<string>, k: nat)
    requires Topological(g, order) && Path(g, path) && 0 < k < |path|
    ensures IndexOf(order, path[0]) < IndexOf(order, path[k])
  {
    var n := path[k];
    assert Reads(g, path[k - 1 + 1], path[k - 1]);
    var i :| 0 <= i < |g[n]| && g[n][i] == path[k - 1];
    var at := IndexOf(order, n);
    assert InputsIn(g, order[at], order[..at]);
    var j :| 0 <= j < at && order[j] == path[k - 1];
    assert IndexOf(order, path[k - 1]) == j;
    if k > 1 {
      PathRises(g, order, path, k - 1);
    }
  }

  lemma TopologicalMeansAcyclic(g: Graph, order: seq<string>)
    requires Topological(g, order)
    ensures !Cyclic(g)
  {
    if Cyclic(g) {
      var path :| |path| > 1 && Path(g, path) && path[0] == path[|path| - 1];
      PathRises(g, order, path, |path| - 1);
    }
  }

  ghost predicate ReadsInside(g: Graph, stuck: set<string>, x: string) {
    exists y :: y in stuck && Reads(g, x, y)
  }

  lemma PickInput(g: Graph, stuck: set<string>, x: string) returns (y: string)
    requires ReadsInside(g, stuck, x)
    ensures y in stuck && Reads(g, x, y)
  {
    y :| y in stuck && Reads(g, x, y);
  }

  // Among passes each of which reads another of them, walks of any length.
  lemma {:induction false} LongPath(g: Graph, stuck: set<string>, n: string, k: nat) returns (path: seq<string>)
    requires n in stuck && stuck <= g.Keys && forall x :: x in stuck ==> ReadsInside(g, stuck, x)
    ensures |path| == k + 1 && Path(g, path) && path[k] == n && forall i :: 0 <= i < |path| ==> path[i] in stuck
    decreases k
  {
    hide ReadsInside;
    if k == 0 {
      path := [n];
    } else {
      var m := PickInput(g, stuck, n);
      var front := LongPath(g, stuck, m, k - 1);
      path := front + [n];
      PathMore(g, front, n);
    }
  }

  lemma PathMore(g: Graph, front: seq<string>, n: string)
    requires Path(g, front) && front != [] && Reads(g, n, front[|front| - 1])
    ensures Path(g, front + [n])
  {
    var path := front + [n];
    forall i | 0 <= i < |path| - 1
      ensures Reads(g, path[i + 1], path[i])
    {
      if i < |front| - 1 {
        assert Reads(g, front[i + 1], front[i]);
      }
    }
  }

  lemma PathSlice(g: Graph, path: seq<string>, i: nat, j: nat)
    requires Path(g, path) && i < j < |path|
    ensures Path(g, path[i..j + 1])
  {
    var loop := path[i..j + 1];
    forall k | 0 <= k < |loop| - 1
      ensures Reads(g, loop[k + 1], loop[k])
    {
      assert Reads(g, path[i + k + 1], path[i + k]);
    }
  }

  // A walk longer than the set it stays in repeats a pass.
  lemma Repeats(path: seq<string>, within: set<string>) returns (i: nat, j: nat)
    requires |path| > |within| && forall k :: 0 <= k < |path| ==> path[k] in within
    ensures i < j < |path| && path[i] == path[j]
  {
    if Distinct(path) {
      DistinctSize(path);
      assert Elements(path) <= within;
      SubsetSize(Elements(path), within);
      assert false;
    }
    i, j :| 0 <= i < j < |path| && path[i] == path[j];
  }

  // Passes none of which can run hide a cycle.
  lemma StuckMeansCyclic(g: Graph, order: seq<string>)
    requires Known(g) && Progress(g, order) && Ready(g, order) == {} && !Topological(g, order)
    ensures Cyclic(g)
  {
    var stuck := set n | n in g && n !in order;
    var n :| n in g && n !in order;
    forall x | x in stuck
      ensures ReadsInside(g, stuck, x)
    {
      StuckReads(g, order, stuck, x);
    }
    hide *;
    var path := LongPath(g, stuck, n, |stuck|);
    var i, j := Repeats(path, stuck);
    PathSlice(g, path, i, j);
    LoopIsCycle(g, path[i..j + 1]);
  }

  lemma LoopIsCycle(g: Graph, path: seq<string>)
    requires |path| > 1 && Path(g, path) && path[0] == path[|path| - 1]
    ensures Cyclic(g)
  {
  }

  lemma StuckReads(g: Graph, order: seq<string>, stuck: set<string>, x: string)
    requires Known(g) && Ready(g, order) == {} && x in g && x !in order
    requires forall n :: n in g && n !in order ==> n in stuck
    ensures ReadsInside(g, stuck, x)
  {
    assert x !in Ready(g, order);
    var i :| 0 <= i < |g[x]| && g[x][i] !in order;
    assert g[x][i] in stuck && Reads(g, x, g[x][i]);
  }

  // Kahn's algorithm lists every pass exactly when the graph has no cycle.
  lemma KahnCompleteIff(g: Graph)
    requires Known(g)
    ensures |Kahn(g, [])| == |g.Keys| <==> !Cyclic(g)
    ensures |Kahn(g, [])| == |g.Keys| <==> Topological(g, Kahn(g, []))
  {
    var order := Kahn(g, []);
    ProgressBound(g, order);
    if Topological(g, order) {
      TopologicalMeansAcyclic(g, order);
    } else {
      StuckMeansCyclic(g, order);
    }
  }

  /******* The least order *******/

  // a comes before b: at the first place where they differ, a is smaller.
  predicate LexBefore(a: seq<string>, b: seq<string>) {
    a == b || (exists k :: 0 <= k < |a| && k < |b| && a[..k] == b[..k] && Less(a[k], b[k]))
  }

  lemma {:induction false} KahnFollows(g: Graph, done: seq<string>, other: seq<string>)
    requires Topological(g, other) && Progress(g, done) && |done| <= |other| && other[..|done|] == done
    ensures LexBefore(Kahn(g, done), other)
    decreases |g.Keys| - |done|
  {
    hide *;
    var order := Kahn(g, done);
    var k := |done|;
    TopologicalProgress(g, other);
    ProgressBound(g, other);
    ProgressBound(g, done);
    ProgressBound(g, order);
    if k == |other| {
      assert other == done;
      assert order == order[..|done|];
      LexSame(order);
    } else {
      OtherIsReady(g, done, other);
      var n := Least(Ready(g, done));
      KahnUnfold(g, done);
      ProgressStep(g, done, n);
      if n == other[k] {
        assert other[..k + 1] == done + [n];
        KahnFollows(g, done + [n], other);
      } else {
        assert order[..k + 1] == done + [n];
        assert order[k] == order[..k + 1][k] == n;
        LexDiffers(order, other, k);
      }
    }
  }

  lemma TopologicalProgress(g: Graph, order: seq<string>)
    requires Topological(g, order)
    ensures Progress(g, order)
  {
  }

  lemma LexSame(a: seq<string>)
    ensures LexBefore(a, a)
  {
  }

  lemma LexDiffers(a: seq<string>, b: seq<string>, k: nat)
    requires k < |a| && k < |b| && a[..k] == b[..k] && Less(a[k], b[k])
    ensures LexBefore(a, b)
  {
  }

  lemma KahnUnfold(g: Graph, done: seq<string>)
    requires Progress(g, done) && Ready(g, done) != {}
    ensures Progress(g, done + [Least(Ready(g, done))]) && Kahn(g, done) == Kahn(g, done + [Least(Ready(g, done))])
  {
    ProgressStep(g, done, Least(Ready(g, done)));
  }

  lemma OtherIsReady(g: Graph, done: seq<string>, other: seq<string>)
    requires Topological(g, other) && |done| < |other| && other[..|done|] == done
    ensures other[|done|] in Ready(g, done)
  {
    var n := other[|done|];
    assert InputsIn(g, n, other[..|done|]);
    forall i | 0 <= i < |done|
      ensures done[i] != n
    {
      assert done[i] == other[..|done|][i] == other[i];
    }
  }

  // Of all topological orders the computed one comes first.
  lemma KahnIsLeast(g: Graph, other: seq<string>)
    requires Topological(g, other)
    ensures LexBefore(Kahn(g, []), other)
  {
    KahnFollows(g, [], other);
  }
}
