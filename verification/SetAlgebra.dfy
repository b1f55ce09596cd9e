/**
 The class `IntervalSet` of `pycroft/helpers/interval.py`: how a set is built, the four set
 operations, and the canonical form.
 */
module SetAlgebra {
  import opened Wrappers
  import opened Intervals
  import opened IntervalSets

  /** What the operations take: nothing, another set, one interval or any iterable of intervals. */
  datatype Source =
    | Nothing
    | Set(intervals: seq<Interval>)
    | Single(interval: Interval)
    | Iterable(items: seq<Interval>)

  /** Insertion by `__lt__`, behind everything that is not greater. */
  function Inserted(x: Interval, s: seq<Interval>): seq<Interval> {
    if s == [] || !s[0].Precedes(x) then [x] + s else [s[0]] + Inserted(x, s[1..])
  }

  /** Python's `sorted`, as a stable insertion sort. */
  function Sorted(s: seq<Interval>): seq<Interval> {
    if s == [] then [] else Inserted(s[0], Sorted(s[1..]))
  }

  function Mangled(arg: Source): seq<Interval> {
    match arg
    case Nothing => []
    case Set(intervals) => intervals
    case Single(interval) => [interval]
    case Iterable(items) => Joined(Sorted(items))
  }

  function Union(self: seq<Interval>, other: Source): seq<Interval> {
    Joined(Chained(self, Mangled(other)))
  }

  function Intersection(self: seq<Interval>, other: Source): seq<Interval> {
    Intersected(self, Mangled(other))
  }

  /** The complement goes through the iterable branch, hence is sorted and joined once more. */
  function Difference(self: seq<Interval>, other: Source): Option<seq<Interval>> {
    var gaps := Complemented(Mangled(other));
    if gaps.None? then None else Some(Intersection(self, Iterable(gaps.value)))
  }

  // ----- sorting -----

  lemma {:induction false} InsertedSorted(x: Interval, s: seq<Interval>)
    ensures forall y :: y in Inserted(x, s) <==> y == x || y in s
    ensures multiset(Inserted(x, s)) == multiset{x} + multiset(s)
    ensures BeginSorted(s) ==> BeginSorted(Inserted(x, s))
    ensures forall p :: In(p, Inserted(x, s)) <==> x.Has(p) || In(p, s)
  {
    if s == [] || !s[0].Precedes(x) {
      assert ([x] + s)[1..] == s;
    } else {
      InsertedSorted(x, s[1..]);
      var more := Inserted(x, s[1..]);
      assert ([s[0]] + more)[1..] == more;
      assert s == [s[0]] + s[1..];
    }
  }

  /** The sort rearranges, and leaves the begins in ascending order in spite of `-oo < -oo`. */
  lemma {:induction false} SortedIsArrangement(s: seq<Interval>)
    ensures multiset(Sorted(s)) == multiset(s)
    ensures forall y :: y in Sorted(s) <==> y in s
    ensures BeginSorted(Sorted(s))
    ensures forall p :: In(p, Sorted(s)) <==> In(p, s)
  {
    if s == [] {
    } else {
      assert s == [s[0]] + s[1..];
      SortedIsArrangement(s[1..]);
      InsertedSorted(s[0], Sorted(s[1..]));
    }
  }

  lemma {:induction false} SortedIdentity(s: seq<Interval>)
    requires Separated(s) && NoneEmpty(s)
    ensures Sorted(s) == s
  {
    if s == [] {
    } else {
      SortedIdentity(s[1..]);
      if |s| > 1 {
        assert s[1] in s[1..] && s[0] in s;
      }
    }
  }

  lemma {:induction false} JoinedIdentity(s: seq<Interval>)
    requires Separated(s) && NoneEmpty(s)
    ensures Joined(s) == s
  {
    DropEmptyIdentity(s);
    if s != [] {
      JoinedFromIdentity(s[0], s[1..]);
      assert [s[0]] + s[1..] == s;
    }
  }

  lemma {:induction false} DropEmptyIdentity(s: seq<Interval>)
    requires NoneEmpty(s)
    ensures DropEmpty(s) == s
  {
    if s == [] {
    } else {
      DropEmptyIdentity(s[1..]);
      assert s[0] in s;
    }
  }

  lemma {:induction false} JoinedFromIdentity(top: Interval, rest: seq<Interval>)
    requires Separated([top] + rest)
    ensures JoinedFrom(top, rest) == [top] + rest
    decreases |rest|
  {
    assert ([top] + rest)[1..] == rest;
    if rest == [] {
    } else {
      assert [rest[0]] + rest[1..] == rest && rest[0] in rest;
      JoinedFromIdentity(rest[0], rest[1..]);
    }
  }

  // ----- orders -----

  lemma {:induction false} OrderedBegins(s: seq<Interval>)
    requires Ordered(s)
    ensures BeginSorted(s)
  {
    if s == [] {
    } else {
      OrderedBegins(s[1..]);
    }
  }

  lemma {:induction false} SeparatedOrdered(s: seq<Interval>)
    requires Separated(s)
    ensures Ordered(s)
  {
    if s == [] {
    } else {
      SeparatedOrdered(s[1..]);
    }
  }

  // ----- the operations on right-open sets are the set operations -----

  /** A right-open set in order; neighbours may touch, and empty intervals may occur. */
  ghost predicate RightOpenSet(s: seq<Interval>) {
    AllFit(RightOpen, s) && Ordered(s)
  }

  ghost predicate RightOpenSource(arg: Source) {
    match arg
    case Nothing => true
    case Set(intervals) => RightOpenSet(intervals)
    case Single(interval) => RightOpen.Fits(interval)
    case Iterable(items) => AllFit(RightOpen, items)
  }

  /** p lies in what the argument stands for. */
  predicate Means(arg: Source, p: Instant) {
    match arg
    case Nothing => false
    case Set(intervals) => In(p, intervals)
    case Single(interval) => interval.Has(p)
    case Iterable(items) => In(p, items)
  }

  /** Construction from anything right-open keeps exactly the points, in order. */
  lemma {:induction false} MangledExact(arg: Source)
    requires RightOpenSource(arg)
    ensures RightOpenSet(Mangled(arg))
    ensures forall p :: In(p, Mangled(arg)) <==> Means(arg, p)
  {
    match arg
    case Nothing =>
    case Set(intervals) =>
    case Single(interval) =>
    case Iterable(items) =>
      SortedIsArrangement(items);
      JoinedMerged(RightOpen, Sorted(items));
  }

  lemma {:induction false} UnionExact(self: seq<Interval>, other: Source)
    requires RightOpenSet(self) && RightOpenSource(other)
    ensures RightOpenSet(Union(self, other))
    ensures forall p :: In(p, Union(self, other)) <==> In(p, self) || Means(other, p)
  {
    MangledExact(other);
    UnionMerged(RightOpen, self, other);
  }

  /** The one-pass union, on either family. */
  lemma {:induction false} UnionMerged(f: Family, self: seq<Interval>, other: Source)
    requires AllFit(f, self) && Ordered(self) && AllFit(f, Mangled(other)) && Ordered(Mangled(other))
    ensures Merged(f, Chained(self, Mangled(other)), Union(self, other))
    ensures forall p :: In(p, Union(self, other)) <==> In(p, self) || In(p, Mangled(other))
  {
    var other := Mangled(other);
    OrderedBegins(self);
    OrderedBegins(other);
    ChainedSorted(self, other);
    ChainedElements(self, other);
    ChainedPoints(self, other);
    JoinedMerged(f, Chained(self, other));
  }

  lemma {:induction false} IntersectionExact(self: seq<Interval>, other: Source)
    requires RightOpenSet(self) && RightOpenSource(other)
    ensures RightOpenSet(Intersection(self, other))
    ensures forall p :: In(p, Intersection(self, other)) <==> In(p, self) && Means(other, p)
  {
    MangledExact(other);
    IntersectExact(RightOpen, self, Mangled(other));
    IntersectedForm(self, Mangled(other));
  }

  lemma {:induction false} ComplementOfRightOpen(s: seq<Interval>)
    requires RightOpenSet(s)
    ensures Complemented(s).Some? && RightOpenSet(Complemented(s).value)
    ensures forall p :: In(p, Complemented(s).value) <==> !In(p, s)
  {
    ComplementExact(s);
    ComplementForm(s);
  }

  lemma {:induction false} DifferenceExact(self: seq<Interval>, other: Source)
    requires RightOpenSet(self) && RightOpenSource(other)
    ensures Difference(self, other).Some? && RightOpenSet(Difference(self, other).value)
    ensures forall p :: In(p, Difference(self, other).value) <==> In(p, self) && !Means(other, p)
  {
    MangledExact(other);
    ComplementOfRightOpen(Mangled(other));
    IntersectionExact(self, Iterable(Complemented(Mangled(other)).value));
  }

  // ----- the canonical form -----

  /** The set is given as an iterable of bounded-below intervals or is canonical already. */
  ghost predicate CanonicalSource(arg: Source) {
    match arg
    case Nothing => true
    case Set(intervals) => Canonical(intervals)
    case Single(interval) => Canonical([interval])
    case Iterable(items) => AllFit(RightOpen, items) && BoundedBelow(items)
  }

  lemma {:induction false} MangledCanonical(arg: Source)
    requires CanonicalSource(arg)
    ensures Canonical(Mangled(arg))
  {
    match arg
    case Nothing =>
    case Set(intervals) =>
    case Single(interval) =>
    case Iterable(items) =>
      SortedIsArrangement(items);
      JoinedMerged(RightOpen, Sorted(items));
  }

  lemma {:induction false} UnionCanonical(self: seq<Interval>, other: Source)
    requires Canonical(self) && CanonicalSource(other)
    ensures Canonical(Union(self, other))
  {
    var o := Mangled(other);
    MangledCanonical(other);
    SeparatedOrdered(self);
    SeparatedOrdered(o);
    UnionMerged(RightOpen, self, other);
    ChainedElements(self, o);
  }

  lemma {:induction false} IntersectionCanonical(self: seq<Interval>, other: Source)
    requires Canonical(self) && CanonicalSource(other)
    ensures Canonical(Intersection(self, other))
  {
    MangledCanonical(other);
    SeparatedOrdered(Mangled(other));
    IntersectedForm(self, Mangled(other));
  }

  /** The gaps of a canonical set are separated, so sorting and joining them changes nothing. */
  lemma {:induction false} GapsOfCanonical(s: seq<Interval>)
    requires Canonical(s)
    ensures Complemented(s).Some?
    ensures Regular(Complemented(s).value) && Ordered(Complemented(s).value)
    ensures Mangled(Iterable(Complemented(s).value)) == Complemented(s).value
  {
    SeparatedOrdered(s);
    ComplementExact(s);
    ComplementForm(s);
    SortedIdentity(Complemented(s).value);
    JoinedIdentity(Complemented(s).value);
  }

  lemma {:induction false} DifferenceCanonical(self: seq<Interval>, other: Source)
    requires Canonical(self) && CanonicalSource(other)
    ensures Difference(self, other).Some? && Canonical(Difference(self, other).value)
  {
    MangledCanonical(other);
    GapsOfCanonical(Mangled(other));
    IntersectedForm(self, Complemented(Mangled(other)).value);
  }

  predicate IsEndpoint(p: Instant, s: seq<Interval>) {
    s != [] && (s[0].lower.value == At(p) || s[0].upper.value == At(p) || IsEndpoint(p, s[1..]))
  }

  /** The canonical form without the bound below, as complements have it. */
  ghost predicate Regular(s: seq<Interval>) {
    AllFit(RightOpen, s) && NoneEmpty(s) && Separated(s)
  }

  lemma HeadPoint(s: seq<Interval>)
    requires Regular(s) && s != []
    ensures BoundedBelow(s) <==> s[0].lower.value.At?
    ensures BoundedBelow(s[1..])
    ensures BoundedBelow(s) ==> IsEndpoint(s[0].lower.value.t, s) && In(s[0].lower.value.t, s)
  {
    assert s[0] in s;
    assert forall x :: x in s <==> x == s[0] || x in s[1..];
  }

  /**
   Regular sets that agree at their endpoints, and on whether they are bounded below, are equal; so
   points determine the tuple.
   */
  lemma {:induction false} CanonicalUnique(a: seq<Interval>, b: seq<Interval>)
    requires Regular(a) && Regular(b) && (BoundedBelow(a) <==> BoundedBelow(b))
    requires forall p :: IsEndpoint(p, a) || IsEndpoint(p, b) ==> (In(p, a) <==> In(p, b))
    ensures a == b
  {
    if a != [] {
      HeadPoint(a);
    }
    if b != [] {
      HeadPoint(b);
    }
    if a != [] && b != [] {
      SameHead(a, b);
      forall p | IsEndpoint(p, a[1..]) || IsEndpoint(p, b[1..])
        ensures In(p, a[1..]) <==> In(p, b[1..])
      {
        if IsEndpoint(p, a[1..]) {
          EndpointsAfter(p, a);
        } else {
          EndpointsAfter(p, b);
        }
        assert IsEndpoint(p, a) || IsEndpoint(p, b);
        assert !a[0].Has(p);
      }
      CanonicalUnique(a[1..], b[1..]);
      assert a == [a[0]] + a[1..] && b == [b[0]] + b[1..];
    }
  }

  lemma {:induction false} SameHead(a: seq<Interval>, b: seq<Interval>)
    requires Regular(a) && Regular(b) && (BoundedBelow(a) <==> BoundedBelow(b)) && a != [] && b != []
    requires forall p :: IsEndpoint(p, a) || IsEndpoint(p, b) ==> (In(p, a) <==> In(p, b))
    ensures a[0] == b[0]
  {
    HeadPoint(a);
    HeadPoint(b);
    assert a[0] in a && b[0] in b && RightOpen.Fits(a[0]) && RightOpen.Fits(b[0]);
    PointsFrom(a);
    PointsFrom(b);
    assert a[0].lower == b[0].lower;
    SameHeadEnd(a, b);
    SameHeadEnd(b, a);
  }

  /** Regular sets with the same points have the same tuple. */
  lemma {:induction false} PointsDetermine(a: seq<Interval>, b: seq<Interval>)
    requires Regular(a) && Regular(b)
    requires forall p :: In(p, a) <==> In(p, b)
    ensures a == b
  {
    if BoundedBelow(b) {
      BoundedTogether(a, b);
    } else if BoundedBelow(a) {
      BoundedTogether(b, a);
    }
    CanonicalUnique(a, b);
  }

  lemma {:induction false} ReachesDown(s: seq<Interval>, v: Instant)
    requires Regular(s) && !BoundedBelow(s)
    ensures exists q :: q < v && In(q, s)
  {
    HeadPoint(s);
    assert s[0] in s;
    var q := if s[0].upper.value.At? && s[0].upper.value.t < v then s[0].upper.value.t - 1.0 else v - 1.0;
    assert s[0].Has(q) && In(q, s);
  }

  lemma {:induction false} StaysAbove(s: seq<Interval>) returns (v: Instant)
    requires Regular(s) && BoundedBelow(s)
    ensures forall q :: q < v ==> !In(q, s)
  {
    if s == [] {
      v := 0.0;
    } else {
      HeadPoint(s);
      PointsFrom(s);
      v := s[0].lower.value.t;
    }
  }

  lemma {:induction false} BoundedTogether(a: seq<Interval>, b: seq<Interval>)
    requires Regular(a) && Regular(b) && BoundedBelow(b)
    requires forall p :: In(p, a) ==> In(p, b)
    ensures BoundedBelow(a)
  {
    var v := StaysAbove(b);
    if !BoundedBelow(a) {
      ReachesDown(a, v);
    }
  }

  lemma {:induction false} PointsFrom(s: seq<Interval>)
    requires Regular(s) && s != []
    ensures forall p :: In(p, s) ==> s[0].lower.value.AtMost(At(p))
    ensures forall p :: In(p, s[1..]) ==> s[0].upper.value.Below(At(p))
  {
    forall p | In(p, s[1..])
      ensures s[0].upper.value.Below(At(p))
    {
      InMeaning(p, s[1..]);
    }
    assert s[0] in s;
  }

  lemma {:induction false} EndpointsAfter(p: Instant, s: seq<Interval>)
    requires Separated(s) && s != [] && IsEndpoint(p, s[1..])
    ensures s[0].upper.value.Below(At(p))
  {
    EndpointInside(p, s[1..]);
  }

  lemma {:induction false} EndpointInside(p: Instant, s: seq<Interval>)
    requires IsEndpoint(p, s)
    ensures exists x :: x in s && (x.lower.value == At(p) || x.upper.value == At(p))
  {
    if s[0].lower.value == At(p) || s[0].upper.value == At(p) {
      assert s[0] in s;
    } else {
      EndpointInside(p, s[1..]);
    }
  }

  lemma {:induction false} SameHeadEnd(a: seq<Interval>, b: seq<Interval>)
    requires Regular(a) && Regular(b) && a != [] && b != [] && a[0].lower == b[0].lower
    requires forall p :: IsEndpoint(p, a) || IsEndpoint(p, b) ==> (In(p, a) <==> In(p, b))
    ensures b[0].upper.value.AtMost(a[0].upper.value)
  {
    assert a[0] in a && b[0] in b;
    if a[0].upper.value.At? {
      var q := a[0].upper.value.t;
      PointsFrom(a);
      assert IsEndpoint(q, a) && !In(q, a);
      assert !b[0].Has(q);
    }
  }

  // ----- when construction gives a regular set -----

  /** An instant at which an interval begins, with everything before it in the set, inside of no interval. */
  ghost predicate FaultAt(s: seq<Interval>, x: Instant) {
    && (exists y :: y in s && !y.Empty() && y.lower.value == At(x))
    && (forall p :: p < x ==> In(p, s))
    && (forall z :: z in s ==> !Inside(x, z))
  }

  ghost predicate Faultless(s: seq<Interval>) {
    forall x :: !FaultAt(s, x)
  }

  /** x lies strictly between the ends. */
  predicate Inside(x: Instant, z: Interval) {
    z.lower.value.Below(At(x)) && At(x).Below(z.upper.value)
  }

  lemma {:induction false} JoinedFromHead(top: Interval, rest: seq<Interval>)
    requires AllFit(RightOpen, rest) && NoneEmpty(rest) && RightOpen.Fits(top) && !top.Empty()
    requires BeginSorted(rest) && BeginsFrom(top.lower.value, rest)
    ensures JoinedFrom(top, rest) != [] && JoinedFrom(top, rest)[0].lower == top.lower
    decreases |rest|
  {
    if rest == [] {
    } else {
      JoinStep(RightOpen, top, rest[0]);
      if Join(top, rest[0]).Some? {
        JoinedFromHead(Join(top, rest[0]).value, rest[1..]);
      }
    }
  }

  /** A bounded-below remainder behind an interval that reaches down to -oo. */
  lemma {:induction false} FaultBehind(top: Interval, rest: seq<Interval>)
    requires AllFit(RightOpen, rest) && NoneEmpty(rest) && RightOpen.Fits(top) && !top.Empty()
    requires BeginSorted(rest) && rest != [] && top.lower.value.NegInf? && Join(top, rest[0]).None?
    ensures Separated([top] + JoinedFrom(rest[0], rest[1..])) <==> top.upper.value != rest[0].lower.value
    ensures Faultless([top] + rest) <==> top.upper.value != rest[0].lower.value
  {
    var s, out := [top] + rest, JoinedFrom(rest[0], rest[1..]);
    assert rest == [rest[0]] + rest[1..] && s[1..] == rest && ([top] + out)[1..] == out;
    JoinStep(RightOpen, top, rest[0]);
    JoinedFromMerged(RightOpen, rest[0], rest[1..]);
    JoinedFromHead(rest[0], rest[1..]);
    assert rest[0] in rest && out[0] in out;
    var x := rest[0].lower.value.t;
    if top.upper.value == rest[0].lower.value {
      assert rest[0] in s && forall p :: p < x ==> top.Has(p) && In(p, s);
      assert FaultAt(s, x);
    } else {
      forall y
        ensures !FaultAt(s, y)
      {
        NoFaultPast(top, rest, y);
      }
    }
  }

  /** Room behind the interval that reaches down to -oo leaves instants uncovered. */
  lemma {:induction false} NoFaultPast(top: Interval, rest: seq<Interval>, y: Instant)
    requires rest != [] && BeginSorted(rest) && top.lower.value.NegInf? && top.upper.value.Below(rest[0].lower.value)
    ensures !FaultAt([top] + rest, y)
  {
    var s := [top] + rest;
    assert s[1..] == rest && forall z :: z in rest <==> z == rest[0] || z in rest[1..];
    var p := (top.upper.value.t + rest[0].lower.value.t) / 2.0;
    InMeaning(p, rest);
    assert !In(p, s);
    assert forall z :: z in s <==> z == top || z in rest;
  }

  /** Joining the first two changes no fault. */
  lemma {:induction false} FaultJoined(top: Interval, rest: seq<Interval>, c: Interval, x: Instant)
    requires AllFit(RightOpen, rest) && NoneEmpty(rest) && RightOpen.Fits(top) && !top.Empty() && rest != []
    requires top.lower.value.NegInf? && Join(top, rest[0]) == Some(c)
    ensures FaultAt([top] + rest, x) <==> FaultAt([c] + rest[1..], x)
  {
    var s, t := [top] + rest, [c] + rest[1..];
    JoinStep(RightOpen, top, rest[0]);
    assert rest[0] in rest && s[1..] == rest && t[1..] == rest[1..];
    assert forall z :: z in s <==> z == top || z == rest[0] || z in rest[1..];
    assert forall z :: z in t <==> z == c || z in rest[1..];
    assert forall p :: In(p, s) <==> top.Has(p) || rest[0].Has(p) || In(p, rest[1..]);
    assert forall p :: In(p, t) <==> c.Has(p) || In(p, rest[1..]);
    assert Inside(x, c) <==> Inside(x, top) || Inside(x, rest[0]);
    assert rest[0].lower.value == At(x) ==> Inside(x, top);
  }

  lemma {:induction false} SeparatedFromIff(top: Interval, rest: seq<Interval>)
    requires AllFit(RightOpen, rest) && NoneEmpty(rest) && RightOpen.Fits(top) && !top.Empty()
    requires BeginSorted(rest) && top.lower.value.NegInf?
    ensures Separated(JoinedFrom(top, rest)) <==> Faultless([top] + rest)
    decreases |rest|
  {
    if rest == [] {
      assert [top][1..] == [];
    } else {
      JoinStep(RightOpen, top, rest[0]);
      if Join(top, rest[0]).None? {
        FaultBehind(top, rest);
      } else {
        var c: Interval := Join(top, rest[0]).value;
        SeparatedFromIff(c, rest[1..]);
        forall x
          ensures FaultAt([top] + rest, x) <==> FaultAt([c] + rest[1..], x)
        {
          FaultJoined(top, rest, c, x);
        }
      }
    }
  }

  lemma {:induction false} KeptRegularIff(kept: seq<Interval>)
    requires AllFit(RightOpen, kept) && NoneEmpty(kept) && BeginSorted(kept)
    ensures kept == [] ==> Faultless(kept)
    ensures kept != [] ==> (Regular(JoinedFrom(kept[0], kept[1..])) <==> Faultless(kept))
  {
    if kept != [] {
      assert kept == [kept[0]] + kept[1..] && kept[0] in kept;
      JoinedFromMerged(RightOpen, kept[0], kept[1..]);
      if kept[0].lower.value.NegInf? {
        SeparatedFromIff(kept[0], kept[1..]);
      } else {
        NoFaultAbove(kept);
        assert BoundedBelow(kept) by {
          assert forall x :: x in kept <==> x == kept[0] || x in kept[1..];
        }
      }
    }
  }

  /** Faults are a matter of the nonempty intervals, in whatever order. */
  lemma {:induction false} FaultsKept(s: seq<Interval>, t: seq<Interval>)
    requires forall z :: z in t <==> z in s && !z.Empty()
    requires forall p :: In(p, s) <==> In(p, t)
    ensures Faultless(s) <==> Faultless(t)
  {
    forall x
      ensures FaultAt(s, x) <==> FaultAt(t, x)
    {
      assert forall z :: Inside(x, z) ==> !z.Empty();
    }
  }

  lemma {:induction false} KeptOfSorted(s: seq<Interval>)
    requires AllFit(RightOpen, s)
    ensures var kept := DropEmpty(Sorted(s));
      AllFit(RightOpen, kept) && NoneEmpty(kept) && BeginSorted(kept) && (Faultless(s) <==> Faultless(kept))
  {
    SortedIsArrangement(s);
    DropEmptyMeaning(Sorted(s));
    FaultsKept(s, DropEmpty(Sorted(s)));
  }

  /** The constructor makes a regular set of right-open intervals exactly when there is no fault. */
  lemma {:induction false} MangledRegularIff(s: seq<Interval>)
    requires AllFit(RightOpen, s)
    ensures Regular(Mangled(Iterable(s))) <==> Faultless(s)
  {
    KeptOfSorted(s);
    KeptRegularIff(DropEmpty(Sorted(s)));
  }

  /** The union of right-open sets, bounded below or not, is regular exactly when they have no fault together. */
  lemma {:induction false} UnionRegularIff(self: seq<Interval>, other: Source)
    requires RightOpenSet(self) && RightOpenSource(other)
    ensures Regular(Union(self, other)) <==> Faultless(self + Mangled(other))
  {
    var o := Mangled(other);
    var chain := Chained(self, o);
    MangledExact(other);
    OrderedBegins(self);
    OrderedBegins(o);
    ChainedSorted(self, o);
    ChainedElements(self, o);
    ChainedPoints(self, o);
    DropEmptyMeaning(chain);
    forall p
      ensures In(p, self + o) <==> In(p, DropEmpty(chain))
    {
      InConcat(p, self, o);
    }
    FaultsKept(self + o, DropEmpty(chain));
    KeptRegularIff(DropEmpty(chain));
  }

  /** (-oo, 5) and [5, 7), each regular, have a union that is not. */
  lemma {:induction false} UnionAtFault()
    ensures
      var a, b := Span(Bound(NegInf, false), Bound(At(5.0), false)), Span(Bound(At(5.0), true), Bound(At(7.0), false));
      Regular([a]) && Regular([b]) && FaultAt([a] + [b], 5.0) && !Regular(Union([a], Single(b)))
  {
    var a: Interval, b: Interval :=
      Span(Bound(NegInf, false), Bound(At(5.0), false)), Span(Bound(At(5.0), true), Bound(At(7.0), false));
    assert [a][1..] == [] && [b][1..] == [];
    assert forall p :: p < 5.0 ==> a.Has(p) && In(p, [a] + [b]);
    assert b in [a] + [b] && FaultAt([a] + [b], 5.0);
    UnionRegularIff([a], Single(b));
  }

  lemma {:induction false} NoFaultAbove(s: seq<Interval>)
    requires s != [] && BeginSorted(s) && s[0].lower.value.At?
    ensures Faultless(s)
  {
    forall x
      ensures !FaultAt(s, x)
    {
      var l := s[0].lower.value.t;
      var p := if l < x then l - 1.0 else x - 1.0;
      InMeaning(p, s);
      assert forall z :: z in s <==> z == s[0] || z in s[1..];
      assert p < x && !In(p, s);
    }
  }

  /** In which order the intervals are presented does not matter to the constructor. */
  lemma {:induction false} ArrangementIrrelevant(s: seq<Interval>, t: seq<Interval>)
    requires AllFit(RightOpen, s) && Faultless(s)
    requires forall x :: x in s <==> x in t
    ensures Mangled(Iterable(s)) == Mangled(Iterable(t))
  {
    forall p
      ensures In(p, s) <==> In(p, t)
    {
      InMeaning(p, s);
      InMeaning(p, t);
    }
    assert forall x :: FaultAt(t, x) ==> FaultAt(s, x);
    MangledRegularIff(s);
    MangledRegularIff(t);
    MangledExact(Iterable(s));
    MangledExact(Iterable(t));
    PointsDetermine(Mangled(Iterable(s)), Mangled(Iterable(t)));
  }

  /** Two nonempty intervals in order that do not join are left as they are. */
  lemma {:induction false} PairStays(a: Interval, b: Interval)
    requires !b.Precedes(a) && !a.Empty() && !b.Empty() && Join(a, b).None?
    ensures Mangled(Iterable([a, b])) == [a, b]
  {
    assert [a, b][1..] == [b] && [b][1..] == [];
    assert Sorted([b]) == Inserted(b, []) == [b];
    assert ![b][0].Precedes(a) && Inserted(a, [b]) == [a] + [b];
    assert Sorted([a, b]) == Inserted(a, Sorted([a, b][1..])) == [a, b];
    DropEmptyIdentity([a, b]);
    assert JoinedFrom(b, []) == [b];
  }

  /** Without the bound below the form is not unique: (-oo, 5) and [5, 7) stay apart. */
  lemma NotCanonicalBelow()
    ensures
      var a, b := Span(Bound(NegInf, false), Bound(At(5.0), false)), Span(Bound(At(5.0), true), Bound(At(7.0), false));
      var c := Span(Bound(NegInf, false), Bound(At(7.0), false));
      && Mangled(Iterable([a, b])) == [a, b] && Mangled(Iterable([c])) == [c]
      && forall p :: In(p, [a, b]) <==> In(p, [c])
  {
    var a: Interval, b: Interval :=
      Span(Bound(NegInf, false), Bound(At(5.0), false)), Span(Bound(At(5.0), true), Bound(At(7.0), false));
    var c: Interval := Span(Bound(NegInf, false), Bound(At(7.0), false));
    PairStays(a, b);
    assert [c][1..] == [];
    SortedIdentity([c]);
    JoinedIdentity([c]);
    forall p
      ensures In(p, [a, b]) <==> In(p, [c])
    {
      assert [a, b][1..] == [b] && [b][1..] == [];
      assert In(p, [b]) <==> b.Has(p);
      assert In(p, [c]) <==> c.Has(p);
    }
  }
}
