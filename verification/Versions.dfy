// Versions, version ranges and the choice of the latest matching version.
module Versions {
  datatype Option<+T> = None | Some(value: T)

  datatype Version = Version(major: int, minor: int, patch: int)

  // -1, 0 or 1.
  function Compare(a: Version, b: Version): int {
    if a.major != b.major then (if a.major < b.major then -1 else 1)
    else if a.minor != b.minor then (if a.minor < b.minor then -1 else 1)
    else if a.patch != b.patch then (if a.patch < b.patch then -1 else 1)
    else 0
  }

  predicate LessThan(a: Version, b: Version) {
    Compare(a, b) < 0
  }

  // The order of versions, field by field: the first field that differs decides.
  predicate Newer(a: Version, b: Version) {
    || a.major > b.major
    || (a.major == b.major && a.minor > b.minor)
    || (a.major == b.major && a.minor == b.minor && a.patch > b.patch)
  }

  lemma CompareIsLexicographic(a: Version, b: Version)
    ensures LessThan(a, b) <==>
      || a.major < b.major
      || (a.major == b.major && a.minor < b.minor)
      || (a.major == b.major && a.minor == b.minor && a.patch < b.patch)
    ensures LessThan(a, b) <==> Newer(b, a)
    ensures Compare(a, b) == 0 <==> a == b
    ensures Compare(a, b) > 0 <==> LessThan(b, a)
  {
  }

  // From lower (included) to upper (excluded), or upwards without bound.
  datatype Range = Range(lower: Version, upper: Version, unbounded: bool)

  predicate Contains(r: Range, v: Version) {
    !LessThan(v, r.lower) && (r.unbounded || LessThan(v, r.upper))
  }

  lemma ContainsIff(r: Range, v: Version)
    ensures Contains(r, v) <==> !Newer(r.lower, v) && (r.unbounded || Newer(r.upper, v))
  {
  }

  function Intersect(r: Range, other: Range): Option<Range> {
    var lower := if Compare(other.lower, r.lower) > 0 then other.lower else r.lower;
    if r.unbounded && other.unbounded then Some(Range(lower, Version(0, 0, 0), true))
    else
      var upper :=
        if r.unbounded then other.upper
        else if !other.unbounded && Compare(other.upper, r.upper) < 0 then other.upper
        else r.upper;
      if LessThan(lower, upper) then Some(Range(lower, upper, false)) else None
  }

  // The intersection holds exactly the common versions, and fails exactly
  // when there is none.
  lemma IntersectIsExact(a: Range, b: Range)
    ensures Intersect(a, b).Some? ==>
      forall v :: Contains(Intersect(a, b).value, v) <==> Contains(a, v) && Contains(b, v)
    ensures Intersect(a, b).None? <==> forall v :: !(Contains(a, v) && Contains(b, v))
  {
    var r := Intersect(a, b);
    if r.Some? {
      assert Contains(r.value, r.value.lower);
    }
  }

  function SelectLatest(r: Range, candidates: seq<Version>): Option<Version> {
    if candidates == [] then None
    else
      var best := SelectLatest(r, candidates[..|candidates| - 1]);
      var c := candidates[|candidates| - 1];
      if Contains(r, c) && (best.None? || LessThan(best.value, c)) then Some(c) else best
  }

  // What is chosen is a candidate in the range than which no other candidate
  // in the range is newer; nothing is chosen only when no candidate is in the range.
  lemma {:induction false} LatestIsLargest(r: Range, candidates: seq<Version>)
    ensures var v := SelectLatest(r, candidates);
      && (v.Some? ==> v.value in candidates && Contains(r, v.value))
      && (forall c :: c in candidates && Contains(r, c) ==> v.Some? && !Newer(c, v.value))
  {
    if candidates != [] {
      var front := candidates[..|candidates| - 1];
      LatestIsLargest(r, front);
      assert candidates == front + [candidates[|candidates| - 1]];
    }
  }

  // The loop that the resolver runs.
  method SelectLatestOf(r: Range, candidates: seq<Version>) returns (best: Version, have: bool)
    ensures SelectLatest(r, candidates) == if have then Some(best) else None
  {
    best, have := Version(0, 0, 0), false;
    var i := 0;
    while i < |candidates|
      invariant 0 <= i <= |candidates|
      invariant SelectLatest(r, candidates[..i]) == if have then Some(best) else None
    {
      assert candidates[..i + 1][..i] == candidates[..i];
      if Contains(r, candidates[i]) && (!have || LessThan(best, candidates[i])) {
        best, have := candidates[i], true;
      }
      i := i + 1;
    }
    assert candidates[..|candidates|] == candidates;
  }
}
