/**
 `IntervalSet.length` and `Interval.__sub__` of `pycroft/helpers/interval.py`.
 */
module Lengths {
  import opened Wrappers
  import opened Intervals
  import opened IntervalSets
  import opened SetAlgebra

  /** A length, Python's `None` for an unbounded set, or the `TypeError` of an empty `reduce`. */
  datatype SetLength = Length(total: real) | Unbounded | TypeError

  /** The step of the `reduce`. */
  function AddLength(a: Option<real>, b: Option<real>): Option<real> {
    if a.None? || b.None? then None else Some(a.value + b.value)
  }

  function ReduceLengths(acc: Option<real>, rest: seq<Interval>): Option<real>
    decreases |rest|
  {
    if rest == [] then acc else ReduceLengths(AddLength(acc, rest[0].Length()), rest[1..])
  }

  function LengthOf(s: seq<Interval>): SetLength {
    if s == [] then TypeError else
      var r := ReduceLengths(s[0].Length(), s[1..]);
      if r.None? then Unbounded else Length(r.value)
  }

  ghost predicate Bounded(s: seq<Interval>) {
    forall x :: x in s ==> !x.Unbounded()
  }

  /** The sum of the lengths of bounded intervals. */
  ghost function Total(s: seq<Interval>): real
    requires Bounded(s)
  {
    if s == [] then 0.0 else
      assert s[0] in s;
      s[0].upper.value.t - s[0].lower.value.t + Total(s[1..])
  }

  lemma {:induction false} ReduceMeaning(acc: Option<real>, rest: seq<Interval>)
    ensures ReduceLengths(acc, rest).Some? <==> acc.Some? && Bounded(rest)
    ensures acc.Some? && Bounded(rest) ==> ReduceLengths(acc, rest).value == acc.value + Total(rest)
    decreases |rest|
  {
    if rest == [] {
    } else {
      ReduceMeaning(AddLength(acc, rest[0].Length()), rest[1..]);
      assert Bounded(rest) <==> !rest[0].Unbounded() && Bounded(rest[1..]);
    }
  }

  /** The length is missing for the empty set, absent for an unbounded one, else the sum. */
  lemma {:induction false} LengthMeaning(s: seq<Interval>)
    ensures LengthOf(s).TypeError? <==> s == []
    ensures LengthOf(s).Unbounded? <==> !Bounded(s)
    ensures s != [] && Bounded(s) ==> LengthOf(s) == Length(Total(s))
  {
    if s != [] {
      ReduceMeaning(s[0].Length(), s[1..]);
      assert Bounded(s) <==> !s[0].Unbounded() && Bounded(s[1..]);
    }
  }

  /** The length, with 0 for the empty set. */
  function LengthOrZero(s: seq<Interval>): real {
    match LengthOf(s)
    case Length(total) => total
    case _ => 0.0
  }

  // ----- measuring by cells between cut points -----

  ghost predicate Ascends(cuts: seq<real>) {
    cuts != [] ==> (forall c :: c in cuts[1..] ==> cuts[0] < c) && Ascends(cuts[1..])
  }

  ghost predicate Covers(cuts: seq<real>, x: Interval) {
    !x.Unbounded() && x.lower.value.t in cuts && x.upper.value.t in cuts
  }

  ghost predicate CoversAll(cuts: seq<real>, s: seq<Interval>) {
    forall x :: x in s ==> Covers(cuts, x)
  }

  /** The length of the cells [c_k, c_k+1) whose left end lies in s. */
  ghost function Measure(s: seq<Interval>, cuts: seq<real>): real {
    if |cuts| < 2 then 0.0
    else (if In(cuts[0], s) then cuts[1] - cuts[0] else 0.0) + Measure(s, cuts[1..])
  }

  lemma InOne(x: Interval)
    ensures forall p :: In(p, [x]) <==> x.Has(p)
  {
    assert [x][1..] == [];
  }

  lemma {:induction false} MeasureOutside(x: Interval, cuts: seq<real>)
    requires Ascends(cuts)
    requires forall c :: c in cuts ==> !x.Has(c)
    ensures Measure([x], cuts) == 0.0
  {
    if |cuts| >= 2 {
      MeasureOutside(x, cuts[1..]);
      InOne(x);
      assert cuts[0] in cuts;
    }
  }

  /** Cells from inside x to its end telescope. */
  lemma {:induction false} MeasureInside(x: Interval, cuts: seq<real>)
    requires RightOpen.Fits(x) && !x.Unbounded() && Ascends(cuts) && cuts != []
    requires x.lower.value.t <= cuts[0] && x.upper.value.t in cuts
    ensures Measure([x], cuts) == x.upper.value.t - cuts[0]
  {
    var u := x.upper.value.t;
    InOne(x);
    if cuts[0] == u {
      assert forall c :: c in cuts ==> c == cuts[0] || c in cuts[1..];
      MeasureOutside(x, cuts);
    } else {
      assert u in cuts[1..] && cuts[1] in cuts[1..];
      MeasureInside(x, cuts[1..]);
    }
  }

  lemma {:induction false} MeasureOne(x: Interval, cuts: seq<real>)
    requires RightOpen.Fits(x) && Covers(cuts, x) && Ascends(cuts)
    ensures Measure([x], cuts) == x.upper.value.t - x.lower.value.t
  {
    var l := x.lower.value.t;
    if cuts[0] == l {
      MeasureInside(x, cuts);
    } else {
      InOne(x);
      assert l in cuts[1..] && x.upper.value.t in cuts[1..] && cuts[1] in cuts[1..];
      MeasureOne(x, cuts[1..]);
    }
  }

  /** The measure is additive in the set of points. */
  lemma {:induction false} MeasureModular(a: seq<Interval>, b: seq<Interval>, u: seq<Interval>, n: seq<Interval>,
                                          cuts: seq<real>)
    requires forall p :: In(p, u) <==> In(p, a) || In(p, b)
    requires forall p :: In(p, n) <==> In(p, a) && In(p, b)
    ensures Measure(u, cuts) + Measure(n, cuts) == Measure(a, cuts) + Measure(b, cuts)
  {
    if |cuts| >= 2 {
      MeasureModular(a, b, u, n, cuts[1..]);
    }
  }

  lemma {:induction false} MeasureNothing(cuts: seq<real>)
    ensures Measure([], cuts) == 0.0
  {
    if |cuts| >= 2 {
      MeasureNothing(cuts[1..]);
    }
  }

  /** Cut at all endpoints, the measure is the sum of the lengths. */
  lemma {:induction false} MeasureIsTotal(s: seq<Interval>, cuts: seq<real>)
    requires RightOpenSet(s) && CoversAll(cuts, s) && Ascends(cuts)
    ensures Bounded(s) && Measure(s, cuts) == Total(s)
  {
    if s == [] {
      MeasureNothing(cuts);
    } else {
      assert s[0] in s && forall x :: x in s[1..] ==> x in s;
      MeasureIsTotal(s[1..], cuts);
      MeasureOne(s[0], cuts);
      forall p
        ensures In(p, s) <==> In(p, [s[0]]) || In(p, s[1..])
        ensures In(p, []) <==> In(p, [s[0]]) && In(p, s[1..])
      {
        InOne(s[0]);
        InMeaning(p, s[1..]);
        assert forall x :: x in s[1..] ==> Before(s[0], x);
      }
      MeasureModular([s[0]], s[1..], s, [], cuts);
      MeasureNothing(cuts);
    }
  }

  // ----- cut points for a set -----

  ghost function WithCut(c: real, cuts: seq<real>): (r: seq<real>)
    requires Ascends(cuts)
    ensures Ascends(r)
    ensures forall d :: d in r <==> d == c || d in cuts
  {
    if cuts == [] || c < cuts[0] then
      var r := [c] + cuts;
      assert r[1..] == cuts && forall d :: d in cuts ==> d == cuts[0] || d in cuts[1..];
      r
    else if c == cuts[0] then cuts
    else
      var more := WithCut(c, cuts[1..]);
      var r := [cuts[0]] + more;
      assert r[1..] == more;
      r
  }

  ghost function CutsOf(s: seq<Interval>, cuts: seq<real>): (r: seq<real>)
    requires Bounded(s) && Ascends(cuts)
    ensures Ascends(r) && CoversAll(r, s)
    ensures forall d :: d in cuts ==> d in r
  {
    if s == [] then cuts else
      assert s[0] in s;
      var more := CutsOf(s[1..], WithCut(s[0].lower.value.t, WithCut(s[0].upper.value.t, cuts)));
      assert forall x :: x in s ==> x == s[0] || x in s[1..];
      more
  }

  lemma CoversMore(s: seq<Interval>, cuts: seq<real>, more: seq<real>)
    requires CoversAll(cuts, s) && forall d :: d in cuts ==> d in more
    ensures CoversAll(more, s)
  {}

  lemma {:induction false} TotalsModular(a: seq<Interval>, b: seq<Interval>, u: seq<Interval>, n: seq<Interval>)
    requires RightOpenSet(a) && RightOpenSet(b) && RightOpenSet(u) && RightOpenSet(n)
    requires Bounded(a) && Bounded(b) && Bounded(u) && Bounded(n)
    requires forall p :: In(p, u) <==> In(p, a) || In(p, b)
    requires forall p :: In(p, n) <==> In(p, a) && In(p, b)
    ensures Total(u) + Total(n) == Total(a) + Total(b)
  {
    var c1 := CutsOf(a, []);
    var c2 := CutsOf(b, c1);
    var c3 := CutsOf(u, c2);
    var cuts := CutsOf(n, c3);
    CoversMore(a, c1, cuts);
    CoversMore(b, c2, cuts);
    CoversMore(u, c3, cuts);
    MeasureIsTotal(a, cuts);
    MeasureIsTotal(b, cuts);
    MeasureIsTotal(u, cuts);
    MeasureIsTotal(n, cuts);
    MeasureModular(a, b, u, n, cuts);
  }

  /** Bounds of a result come from bounds of the arguments. */
  lemma {:induction false} JoinedFromBounded(top: Interval, rest: seq<Interval>)
    requires !top.Unbounded() && Bounded(rest)
    ensures Bounded(JoinedFrom(top, rest))
    decreases |rest|
  {
    if rest == [] {
    } else {
      assert rest[0] in rest;
      var join := Join(top, rest[0]);
      if join.None? || join.value.Empty() {
        JoinedFromBounded(rest[0], rest[1..]);
      } else {
        JoinedFromBounded(join.value, rest[1..]);
      }
    }
  }

  lemma {:induction false} ResultsBounded(a: seq<Interval>, b: seq<Interval>)
    requires Bounded(a) && Bounded(b)
    ensures Bounded(Union(a, Set(b))) && Bounded(Intersection(a, Set(b)))
  {
    ChainedElements(a, b);
    var kept := DropEmpty(Chained(a, b));
    if kept != [] {
      JoinedFromBounded(kept[0], kept[1..]);
    }
    forall x | x in Intersection(a, Set(b))
      ensures !x.Unbounded()
    {
      IntersectedFrom(a, b, x);
    }
  }

  /** Inclusion and exclusion for bounded canonical sets. */
  lemma {:induction false} InclusionExclusion(a: seq<Interval>, b: seq<Interval>)
    requires Canonical(a) && Canonical(b) && Bounded(a) && Bounded(b)
    ensures !LengthOf(Union(a, Set(b))).Unbounded? && !LengthOf(Intersection(a, Set(b))).Unbounded?
    ensures LengthOrZero(Union(a, Set(b))) + LengthOrZero(Intersection(a, Set(b)))
            == LengthOrZero(a) + LengthOrZero(b)
  {
    var u, n := Union(a, Set(b)), Intersection(a, Set(b));
    SeparatedOrdered(a);
    SeparatedOrdered(b);
    UnionExact(a, Set(b));
    IntersectionExact(a, Set(b));
    ResultsBounded(a, b);
    TotalsModular(a, b, u, n);
    LengthMeaning(a);
    LengthMeaning(b);
    LengthMeaning(u);
    LengthMeaning(n);
  }

  // ----- interval minus ray -----

  datatype Subtraction = Rest(interval: Interval) | NotARay | AssertionFailed

  /** `Interval.__sub__`: the difference must be a single interval. */
  function Subtract(self: Interval, other: Interval): Subtraction {
    if !(other.upper.Unbounded() || other.lower.Unbounded()) then NotARay
    else
      var diff := Difference(Mangled(Iterable([self])), Single(other));
      if diff.Some? && |diff.value| == 1 then Rest(diff.value[0]) else AssertionFailed
  }

  /** The interval ends at `at` and includes it. */
  predicate IncludesEnd(self: Interval, at: Instant) {
    self.upper.value == At(at) && self.upper.closed
  }

  /** The instants before t. */
  function UntilOnly(at: Instant): Interval {
    Span(Bound(NegInf, false), Bound(At(at), false))
  }

  /** The difference, spelt out: the end gives way unless it comes before `at`, or at it. */
  lemma {:induction false} SubtractIs(self: Interval, at: Instant)
    ensures !Subtract(self, StartingFrom(at)).NotARay?
    ensures Subtract(self, StartingFrom(at)).Rest? <==> !self.Empty() && self.lower.value.Below(At(at))
    ensures Subtract(self, StartingFrom(at)).Rest? ==>
      Subtract(self, StartingFrom(at)).interval == Span(self.lower, MinBound(self.upper, Bound(At(at), false)))
  {
    var ray, before := StartingFrom(at), UntilOnly(at);
    assert Complemented([ray]) == Some([before]) by {
      assert [ray][1..] == [];
      assert GapsFrom(ray, []) == Some([]);
      assert [before] + [] == [before];
    }
    assert Mangled(Iterable([before])) == [before] by {
      assert [before][1..] == [];
      SortedIdentity([before]);
      JoinedIdentity([before]);
    }
    var s := Mangled(Iterable([self]));
    assert s == if self.Empty() then [] else [self] by {
      assert [self][1..] == [];
      assert Sorted([self]) == [self];
      assert DropEmpty([]) == [];
    }
    if !self.Empty() {
      var x := Intersect(self, before);
      assert [self][1..] == [] && [before][1..] == [];
      assert Intersected([], [before]) == [] && Intersected([self], []) == [];
      assert Intersected([self], [before]) == if x.Some? && !x.value.Empty() then [x.value] else [];
    }
  }

  /**
   `disable(at)`: it fails exactly when nothing is left, that is, when the interval is empty or does not
   begin before `at`; it leaves exactly the instants before `at`, unless the interval ends at `at`
   and includes it, when that instant stays too.
   */
  lemma {:induction false} SubtractStartingFrom(self: Interval, at: Instant)
    ensures Subtract(self, StartingFrom(at)).Rest? <==> !self.Empty() && self.lower.value.Below(At(at))
    ensures !Subtract(self, StartingFrom(at)).NotARay?
    ensures Subtract(self, StartingFrom(at)).Rest? ==>
      var r := Subtract(self, StartingFrom(at)).interval;
      && !r.Empty() && r.lower == self.lower
      && (forall p :: r.Has(p) <==> self.Has(p) && (p < at || (p == at && IncludesEnd(self, at))))
      && ((forall p :: r.Has(p) <==> self.Has(p) && p < at) <==> !IncludesEnd(self, at))
  {
    SubtractIs(self, at);
    assert IncludesEnd(self, at) && self.lower.value.Below(At(at)) ==> self.Has(at);
  }

  /** Disabling a closed membership at its own end changes nothing. */
  lemma {:induction false} DisableAtEnd()
    ensures var m := Span(Bound(At(0.0), true), Bound(At(1.0), true)); Subtract(m, StartingFrom(1.0)) == Rest(m)
  {
    var m: Interval := Span(Bound(At(0.0), true), Bound(At(1.0), true));
    SubtractIs(m, 1.0);
  }
}
