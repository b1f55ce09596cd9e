/**
 Bounds and intervals of `pycroft/helpers/interval.py`.

 An instant is a real number: the order is total and dense, which is all the original asks of its
 value type.  The comparisons of `Bound` are modelled exactly as written there; they are neither
 reflexive nor irreflexive (`LeMeaning` and `LtMeaning` say how they differ from the true order).
 */
module Intervals {
  import opened Wrappers

  type Instant = real

  /** An instant or one of the two infinities, with the true (total, reflexive) order. */
  datatype Value = NegInf | At(t: Instant) | PosInf {

    predicate AtMost(other: Value) {
      NegInf? || other.PosInf? || (At? && other.At? && t <= other.t)
    }

    predicate Below(other: Value) {
      AtMost(other) && this != other
    }
  }

  datatype Bound = Bound(value: Value, closed: bool) {

    /** The constructor: an infinite bound is always open. */
    static function Make(value: Value, closed: bool): (b: Bound)
      ensures b.Valid()
    {
      Bound(value, closed && value.At?)
    }

    predicate Valid() {
      closed ==> value.At?
    }

    predicate Unbounded() {
      !value.At?
    }

    predicate Le(other: Bound) {
      if value.PosInf? then other.value.PosInf?
      else if value.NegInf? then true
      else if other.value.PosInf? then true
      else if other.value.NegInf? then false
      else if value == other.value then closed && other.closed
      else value.t <= other.value.t
    }

    predicate Lt(other: Bound) {
      if value.PosInf? then other.value.PosInf?
      else if value.NegInf? then true
      else if other.value.PosInf? then true
      else if other.value.NegInf? then false
      else value.t < other.value.t
    }

    function Invert(): Bound {
      Make(value, !closed)
    }
  }

  /** Python's `min` and `max`: the first argument unless the second is strictly better. */
  function MinBound(a: Bound, b: Bound): Bound {
    if b.Lt(a) then b else a
  }

  function MaxBound(a: Bound, b: Bound): Bound {
    if a.Lt(b) then b else a
  }

  datatype Span = Span(lower: Bound, upper: Bound) {

    /** What the constructor of `Interval` lets through: `lower > upper` is refused. */
    predicate Valid() {
      lower.Valid() && upper.Valid() && !upper.Lt(lower)
    }

    predicate Unbounded() {
      lower.Unbounded() || upper.Unbounded()
    }

    predicate Empty() {
      lower.value == upper.value && !(lower.closed && upper.closed)
    }

    /** The length, absent for an unbounded interval. */
    function Length(): Option<real> {
      if Unbounded() then None else Some(upper.value.t - lower.value.t)
    }

    /** `__lt__`, the order in which intervals are sorted and merged. */
    predicate Precedes(other: Span) {
      lower.Lt(other.lower) || (lower == other.lower && upper.Lt(other.upper))
    }

    /** `__contains__`; all statements about sets of points go back to this one. */
    predicate Has(p: Instant) {
      var b := Bound.Make(At(p), true);
      lower.Le(b) && b.Le(upper)
    }

    predicate Meets(other: Span) {
      upper.value == other.lower.value && (upper.closed || lower.closed)
    }

    predicate Overlaps(other: Span) {
      lower.Le(other.upper) && other.lower.Le(upper)
    }
  }

  type Interval = s: Span | s.Valid()
    witness Span(Bound(NegInf, false), Bound(PosInf, false))

  const UNBOUNDED: Interval := Span(Bound(NegInf, false), Bound(PosInf, false))

  /** `starting_from(when)`, that is, [when, oo). */
  function StartingFrom(when: Instant): Interval {
    Span(Bound(At(when), true), Bound(PosInf, false))
  }

  /** `single(when)`, that is, [when, when]. */
  function Moment(when: Instant): Interval {
    Span(Bound(At(when), true), Bound(At(when), true))
  }

  /** `Interval(lower, upper)`; `None` stands for the `ValueError`. */
  function MakeInterval(lower: Bound, upper: Bound): (r: Option<Interval>)
    requires lower.Valid() && upper.Valid()
    ensures r.None? <==> upper.Lt(lower)
    ensures r.Some? ==> r.value == Span(lower, upper)
  {
    if upper.Lt(lower) then None else Some(Span(lower, upper))
  }

  /** The subset types of the result say that the inner constructor call is never refused. */
  function Intersect(a: Interval, b: Interval): (r: Option<Interval>)
    ensures r.None? <==> !a.Overlaps(b)
  {
    if !a.Overlaps(b) then None
    else Some(Span(MaxBound(a.lower, b.lower), MinBound(a.upper, b.upper)))
  }

  function Join(a: Interval, b: Interval): (r: Option<Interval>)
    ensures r.None? <==> !a.Overlaps(b) && !a.Meets(b)
  {
    if !a.Overlaps(b) && !a.Meets(b) then None
    else Some(Span(MinBound(a.lower, b.lower), MaxBound(a.upper, b.upper)))
  }

  function Closure(a: Interval): Interval {
    Span(Bound.Make(a.lower.value, true), Bound.Make(a.upper.value, true))
  }

  // ----- what the odd comparisons mean -----

  lemma LtMeaning(a: Bound, b: Bound)
    ensures a.Lt(b) <==> a.value.Below(b.value) || (a.value == b.value && a.Unbounded())
  {}

  lemma LeMeaning(a: Bound, b: Bound)
    ensures a.Le(b) <==>
            a.value.Below(b.value) || (a.value == b.value && (a.Unbounded() || (a.closed && b.closed)))
  {}

  /** The constructor admits exactly the pairs an interval should have, in spite of `+oo < +oo`. */
  lemma ConstructorMeaning(lower: Bound, upper: Bound)
    requires lower.Valid() && upper.Valid()
    ensures MakeInterval(lower, upper).Some? <==>
            !lower.value.PosInf? && !upper.value.NegInf? && lower.value.AtMost(upper.value)
  {}

  lemma {:induction false} WitnessInside(a: Interval)
    requires !a.Empty()
    ensures exists p :: a.Has(p)
  {
    assert a.Has(InnerPoint(a));
  }

  /** Some point of a nonempty interval. */
  function InnerPoint(a: Interval): (p: Instant)
    ensures a.Empty() || a.Has(p)
  {
    match (a.lower.value, a.upper.value)
    case (At(l), At(u)) => (l + u) / 2.0
    case (At(l), _) => l + 1.0
    case (_, At(u)) => u - 1.0
    case (_, _) => 0.0
  }

  /** `empty` says that an interval has no points. */
  lemma {:induction false} EmptyMeaning(a: Interval)
    ensures a.Empty() <==> forall p :: !a.Has(p)
  {
    if !a.Empty() {
      WitnessInside(a);
    }
  }

  /** `overlaps`, on nonempty intervals: the two share a point. */
  lemma {:induction false} OverlapsMeaning(a: Interval, b: Interval)
    requires !a.Empty() && !b.Empty()
    ensures a.Overlaps(b) <==> exists p :: a.Has(p) && b.Has(p)
  {
    if a.Overlaps(b) {
      var p := InnerPoint(Common(a, b));
      assert a.Has(p) && b.Has(p);
    }
  }

  /** The true intersection of two overlapping intervals. */
  function Common(a: Interval, b: Interval): (c: Interval)
    requires a.Overlaps(b) && !a.Empty() && !b.Empty()
    ensures !c.Empty()
    ensures forall p :: c.Has(p) ==> a.Has(p) && b.Has(p)
  {
    Span(Stricter(a.lower, b.lower, b.lower.value.AtMost(a.lower.value)),
         Stricter(a.upper, b.upper, a.upper.value.AtMost(b.upper.value)))
  }

  /** The bound that excludes more, a when `preferA` says so. */
  function Stricter(a: Bound, b: Bound, preferA: bool): Bound {
    if a.value == b.value then Bound(a.value, a.closed && b.closed) else if preferA then a else b
  }

  // ----- where the pairwise operations lose or invent a point -----

  /** `max` and `min` keep the first of two bounds that differ only in closedness. */
  predicate KeepsExcludedEnd(a: Interval, b: Interval) {
    || (a.lower.value == b.lower.value && a.lower.closed && !b.lower.closed)
    || (a.upper.value == b.upper.value && a.upper.closed && !b.upper.closed)
  }

  predicate DropsIncludedEnd(a: Interval, b: Interval) {
    || (a.lower.value == b.lower.value && !a.lower.closed && b.lower.closed)
    || (a.upper.value == b.upper.value && !a.upper.closed && b.upper.closed)
  }

  /** `intersect` never loses a point, and is exact unless it keeps an excluded end. */
  lemma {:induction false} IntersectExactIff(a: Interval, b: Interval)
    requires a.Overlaps(b)
    ensures forall p :: a.Has(p) && b.Has(p) ==> Intersect(a, b).value.Has(p)
    ensures (forall p :: Intersect(a, b).value.Has(p) <==> a.Has(p) && b.Has(p))
            <==> !KeepsExcludedEnd(a, b)
  {
    var r := Intersect(a, b).value;
    if a.lower.value == b.lower.value && a.lower.closed && !b.lower.closed {
      assert r.Has(a.lower.value.t) && !b.Has(a.lower.value.t);
    } else if a.upper.value == b.upper.value && a.upper.closed && !b.upper.closed {
      assert r.Has(a.upper.value.t) && !b.Has(a.upper.value.t);
    }
  }

  /** The two only touch, at an instant that neither contains. */
  predicate BridgesGap(a: Interval, b: Interval) {
    a.upper.value == b.lower.value && !a.upper.closed && !b.lower.closed
  }

  /** `join` of nonempty intervals is exact unless it drops an included end or bridges a gap. */
  lemma {:induction false} JoinExactIff(a: Interval, b: Interval)
    requires !a.Empty() && !b.Empty() && Join(a, b).Some?
    ensures (forall p :: Join(a, b).value.Has(p) <==> a.Has(p) || b.Has(p))
            <==> !DropsIncludedEnd(a, b) && !BridgesGap(a, b)
  {
    var r := Join(a, b).value;
    if a.lower.value == b.lower.value && !a.lower.closed && b.lower.closed {
      assert b.Has(b.lower.value.t) && !r.Has(b.lower.value.t);
    } else if a.upper.value == b.upper.value && !a.upper.closed && b.upper.closed {
      assert b.Has(b.upper.value.t) && !r.Has(b.upper.value.t);
    } else if BridgesGap(a, b) {
      assert r.Has(a.upper.value.t) && !a.Has(a.upper.value.t) && !b.Has(a.upper.value.t);
    }
  }

  /**
   `meets` is documented to hold when the end of the first is the begin of the second and one of the
   two touching bounds is closed.  It looks at the begin of the first interval instead.
   */
  predicate MeetsAsDocumented(a: Interval, b: Interval) {
    a.upper.value == b.lower.value && (a.upper.closed || b.lower.closed)
  }

  lemma MeetsDeviates(a: Interval, b: Interval)
    ensures a.Meets(b) == MeetsAsDocumented(a, b)
            <==> (a.upper.value == b.lower.value && !a.upper.closed ==> a.lower.closed == b.lower.closed)
  {}

  lemma PairwiseCounterexamples()
    ensures
      // open(3, 5).join(closed(3, 4)) drops 3
      var a, b := Span(Bound(At(3.0), false), Bound(At(5.0), false)), Span(Bound(At(3.0), true), Bound(At(4.0), true));
      a.Valid() && b.Valid() && Join(a, b).Some? && b.Has(3.0) && !Join(a, b).value.Has(3.0) &&
      // closed(3, 4).intersect(open(3, 5)) keeps 3
      Intersect(b, a).Some? && !a.Has(3.0) && Intersect(b, a).value.Has(3.0)
    ensures
      // (-oo, 5) and [5, 7) touch, and do not meet
      var a, b := Span(Bound(NegInf, false), Bound(At(5.0), false)), Span(Bound(At(5.0), true), Bound(At(7.0), false));
      a.Valid() && b.Valid() && MeetsAsDocumented(a, b) && Join(a, b).None?
    ensures
      // [1, 2).join((2, 3)) invents 2
      var a, b := Span(Bound(At(1.0), true), Bound(At(2.0), false)), Span(Bound(At(2.0), false), Bound(At(3.0), false));
      a.Valid() && b.Valid() && !MeetsAsDocumented(a, b) && !DropsIncludedEnd(a, b) &&
      Join(a, b).Some? && Join(a, b).value.Has(2.0) && !a.Has(2.0) && !b.Has(2.0)
  {}
}
