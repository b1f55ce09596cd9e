/**
 What `make_member_of` of `pycroft/lib/membership.py` does to the memberships of a user in a group, for
 every interval it may be given.
 */
module Joining {
  import opened Intervals
  import opened IntervalSets
  import opened SetAlgebra
  import opened Memberships
  import opened MembershipInvariant

  // ----- the union of closed intervals with one interval that touches all of them -----

  ghost predicate AllOverlap(d: Interval, s: seq<Interval>) {
    forall x :: x in s ==> d.Overlaps(x)
  }

  /** Closures of memberships that keep clear of each other, in order. */
  ghost predicate ClosedRun(s: seq<Interval>) {
    Separated(s) && AllFit(Closed, s) && NoneEmpty(s)
  }

  /** At most one of the closures comes before the interval. */
  lemma {:induction false} ChainShape(left: seq<Interval>, d: Interval)
    requires ClosedRun(left) && AllOverlap(d, left) && !d.Empty()
    ensures Chained(left, [d]) == if left != [] && left[0].Precedes(d) then [left[0], d] + left[1..] else [d] + left
  {
    assert [d][1..] == [];
    assert Chained(left, []) == left;
    if left != [] && left[0].Precedes(d) {
      var rest := left[1..];
      assert left[0] in left;
      if rest != [] {
        assert rest[0] in rest && rest[0] in left && WellBefore(left[0], rest[0]);
        assert Chained(rest, []) == rest;
      }
      assert Chained(rest, [d]) == [d] + rest;
      assert [left[0]] + ([d] + rest) == [left[0], d] + rest;
    }
  }

  /** Joining on from an interval that overlaps all the others and begins before them. */
  function Run(top: Interval, rest: seq<Interval>): Span {
    if rest == [] then top else Span(top.lower, MaxBound(top.upper, rest[|rest| - 1].upper))
  }

  lemma {:induction false} JoinedRun(top: Interval, rest: seq<Interval>)
    requires ClosedRun(rest) && AllOverlap(top, rest) && !top.Empty() && BeginsFrom(top.lower.value, rest)
    ensures Run(top, rest).Valid()
    ensures JoinedFrom(top, rest) == [Run(top, rest)]
    decreases |rest|
  {
    if rest == [] {
    } else {
      var y, join := rest[0], Join(top, rest[0]);
      assert y in rest && join.Some? && !join.value.Empty();
      assert join.value.lower == top.lower;
      if |rest| == 1 {
        assert rest[1..] == [];
      } else {
        assert rest[1] in rest && rest[1] in rest[1..] && WellBefore(y, rest[1]);
        assert join.value.upper == top.upper;
        JoinedRun(top, rest[1..]);
        assert rest[1..][|rest| - 2] == rest[|rest| - 1];
      }
    }
  }

  /** The one interval that `make_member_of` leaves. */
  function Hull(left: seq<Interval>, d: Interval): Span {
    if left != [] && left[0].Precedes(d)
    then
      var top := Span(left[0].lower, MaxBound(left[0].upper, d.upper));
      if |left| == 1 then top else Span(top.lower, MaxBound(top.upper, left[|left| - 1].upper))
    else Run(d, left)
  }

  /** The first closure and d have become one, which the others overlap. */
  lemma {:induction false} HullBefore(left: seq<Interval>, d: Interval)
    requires ClosedRun(left) && AllOverlap(d, left) && !d.Empty() && left != [] && left[0].Precedes(d)
    ensures Join(left[0], d).Some?
    ensures var top := Join(left[0], d).value;
      && top.lower == left[0].lower && top.upper == MaxBound(left[0].upper, d.upper) && !top.Empty()
      && AllOverlap(top, left[1..]) && BeginsFrom(top.lower.value, left[1..])
  {
    assert left[0] in left && d.Overlaps(left[0]);
    var top := Join(left[0], d).value;
    forall x | x in left[1..]
      ensures top.Overlaps(x) && top.lower.value.AtMost(x.lower.value)
    {
      assert x in left && WellBefore(left[0], x) && d.Overlaps(x);
    }
  }

  lemma {:induction false} JoinedTwo(x: Interval, d: Interval, rest: seq<Interval>)
    requires NoneEmpty(rest) && !x.Empty() && !d.Empty() && Join(x, d).Some? && !Join(x, d).value.Empty()
    ensures Joined([x, d] + rest) == JoinedFrom(Join(x, d).value, rest)
  {
    var chain := [x, d] + rest;
    assert forall y :: y in chain ==> y == x || y == d || y in rest;
    DropEmptyIdentity(chain);
    assert chain[1..] == [d] + rest && ([d] + rest)[1..] == rest;
  }

  lemma {:induction false} JoinedBefore(left: seq<Interval>, d: Interval)
    requires ClosedRun(left) && AllOverlap(d, left) && !d.Empty() && left != [] && left[0].Precedes(d)
    ensures Hull(left, d).Valid() && Joined([left[0], d] + left[1..]) == [Hull(left, d)]
  {
    HullBefore(left, d);
    var top: Interval, rest := Join(left[0], d).value, left[1..];
    assert left[0] in left;
    JoinedTwo(left[0], d, rest);
    JoinedRun(top, rest);
    assert rest != [] ==> rest[|rest| - 1] == left[|left| - 1];
    assert Run(top, rest) == Hull(left, d);
  }

  lemma {:induction false} JoinedBehind(left: seq<Interval>, d: Interval)
    requires ClosedRun(left) && AllOverlap(d, left) && !d.Empty() && (left != [] ==> !left[0].Precedes(d))
    ensures Hull(left, d).Valid() && Joined([d] + left) == [Hull(left, d)]
  {
    DropEmptyIdentity([d] + left);
    assert ([d] + left)[1..] == left;
    BeginsInside(left, d);
    JoinedRun(d, left);
  }

  lemma {:induction false} HullIsJoined(left: seq<Interval>, d: Interval)
    requires ClosedRun(left) && AllOverlap(d, left) && !d.Empty()
    ensures Hull(left, d).Valid() && Joined(Chained(left, [d])) == [Hull(left, d)]
  {
    ChainShape(left, d);
    if left != [] && left[0].Precedes(d) {
      JoinedBefore(left, d);
    } else {
      JoinedBehind(left, d);
    }
  }

  lemma BeginsInside(left: seq<Interval>, d: Interval)
    requires ClosedRun(left) && (left != [] ==> !left[0].Precedes(d))
    ensures BeginsFrom(d.lower.value, left)
  {
    if left != [] {
      assert left[0] in left;
      assert forall x :: x in left <==> x == left[0] || x in left[1..];
    }
  }

  /** An included end that meets the excluded end of d, and does not come before d, is dropped. */
  predicate LostEnd(left: seq<Interval>, d: Interval, p: Instant) {
    d.upper == Bound(At(p), false) && exists x :: x in left && x.upper.value == At(p) && !x.Precedes(d)
  }

  predicate LostBegin(left: seq<Interval>, d: Interval, p: Instant) {
    d.lower == Bound(At(p), false) && exists x :: x in left && x.lower.value == At(p)
  }

  predicate Lost(left: seq<Interval>, d: Interval, p: Instant) {
    LostEnd(left, d, p) || LostBegin(left, d, p)
  }

  // ----- the points of the hull -----

  lemma {:induction false} HullInside(left: seq<Interval>, d: Interval, p: Instant)
    requires ClosedRun(left) && AllOverlap(d, left) && !d.Empty() && Hull(left, d).Has(p)
    ensures (d.Has(p) || In(p, left)) && !Lost(left, d, p)
  {
    InMeaning(p, left);
    if left != [] {
      var first, last := left[0], left[|left| - 1];
      assert first in left && last in left && d.Overlaps(first) && d.Overlaps(last);
      assert |left| > 1 ==> last == left[1..][|left| - 2] && last in left[1..] && WellBefore(first, last);
      OthersBefore(left);
      assert d.Has(p) || first.Has(p) || last.Has(p);
    }
  }

  /** Only the last can reach beyond the begin of the last. */
  lemma {:induction false} OthersBefore(s: seq<Interval>)
    requires Separated(s) && s != []
    ensures forall x :: x in s ==> x == s[|s| - 1] || WellBefore(x, s[|s| - 1])
    ensures forall x :: x in s ==> x == s[0] || WellBefore(s[0], x)
  {
    if |s| > 1 {
      OthersBefore(s[1..]);
      assert s[1..][|s| - 2] == s[|s| - 1] && s[|s| - 1] in s[1..];
    }
    assert forall x :: x in s <==> x == s[0] || x in s[1..];
  }

  /** Between d and the last closure, and the first one if it comes before d, everything is in the hull. */
  lemma {:induction false} HullCoversBefore(left: seq<Interval>, d: Interval, p: Instant)
    requires ClosedRun(left) && AllOverlap(d, left) && !d.Empty() && left != [] && left[0].Precedes(d)
    requires (d.Has(p) || In(p, left)) && !Lost(left, d, p)
    ensures Hull(left, d).Has(p)
  {
    InMeaning(p, left);
    var first, last := left[0], left[|left| - 1];
    assert first in left && last in left && d.Overlaps(first) && d.Overlaps(last);
    assert |left| > 1 ==> last == left[1..][|left| - 2] && last in left[1..] && WellBefore(first, last);
    OthersBefore(left);
  }

  lemma {:induction false} HullCoversBehind(left: seq<Interval>, d: Interval, p: Instant)
    requires ClosedRun(left) && AllOverlap(d, left) && !d.Empty() && left != [] && !left[0].Precedes(d)
    requires (d.Has(p) || In(p, left)) && !Lost(left, d, p)
    ensures Hull(left, d).Has(p)
  {
    InMeaning(p, left);
    var first, last := left[0], left[|left| - 1];
    assert first in left && last in left && d.Overlaps(last);
    OthersBefore(left);
  }

  lemma {:induction false} HullCovers(left: seq<Interval>, d: Interval, p: Instant)
    requires ClosedRun(left) && AllOverlap(d, left) && !d.Empty()
    requires (d.Has(p) || In(p, left)) && !Lost(left, d, p)
    ensures Hull(left, d).Has(p)
  {
    if left == [] {
    } else if left[0].Precedes(d) {
      HullCoversBefore(left, d, p);
    } else {
      HullCoversBehind(left, d, p);
    }
  }

  /** What keeps clear of the closures keeps clear of the hull exactly when it keeps clear of d. */
  lemma {:induction false} HullApart(left: seq<Interval>, d: Interval, n: Interval)
    requires ClosedRun(left) && AllOverlap(d, left) && !d.Empty() && !n.Empty() && Hull(left, d).Valid()
    requires forall x :: x in left ==> Apart(x, n)
    ensures Apart(Hull(left, d), n) <==> Apart(d, n)
  {
    if left != [] {
      var first, last := left[0], left[|left| - 1];
      assert first in left && last in left && d.Overlaps(first) && d.Overlaps(last);
      assert Apart(first, n) && Apart(last, n);
      OthersBefore(left);
    }
  }

  /** An empty interval changes nothing. */
  lemma {:induction false} EmptyAddsNothing(left: seq<Interval>, d: Interval)
    requires ClosedRun(left) && d.Empty()
    ensures Joined(Chained(left, [d])) == left
  {
    DropChained(left, d);
    JoinedIdentity(left);
    DropEmptyIdentity(left);
  }

  lemma {:induction false} DropChained(left: seq<Interval>, d: Interval)
    requires NoneEmpty(left) && d.Empty()
    ensures DropEmpty(Chained(left, [d])) == left
  {
    assert [d][1..] == [];
    if left != [] && left[0].Precedes(d) {
      DropChained(left[1..], d);
      assert ([left[0]] + Chained(left[1..], [d]))[1..] == Chained(left[1..], [d]);
    } else {
      assert Chained(left, []) == left && ([d] + left)[1..] == left;
      DropEmptyIdentity(left);
    }
  }

  // ----- the components of the closures -----

  /** The closures of memberships, sorted and joined. */
  function Components(rows: Rows): seq<Interval> {
    Mangled(Iterable(Closures(rows)))
  }

  /** The begin of one interval and the end of another, which is more than an instant if x is. */
  predicate EndsOf(x: Interval, a: Interval, b: Interval) {
    && x.lower == a.lower && x.upper == b.upper
    && (x.lower.value.Below(x.upper.value) ==> b.lower.value.Below(b.upper.value))
  }

  lemma {:induction false} JoinedFromEnds(top: Interval, rest: seq<Interval>, x: Interval)
    requires AllFit(Closed, rest) && NoneEmpty(rest) && Closed.Fits(top) && !top.Empty()
    requires BeginSorted(rest) && BeginsFrom(top.lower.value, rest) && x in JoinedFrom(top, rest)
    ensures exists a, b :: a in [top] + rest && b in [top] + rest && EndsOf(x, a, b)
    decreases |rest|
  {
    if rest == [] {
      assert EndsOf(x, top, top);
    } else {
      var c, more := rest[0], rest[1..];
      assert forall z :: z in [top] + rest <==> z == top || z == c || z in more;
      var join := Join(top, c);
      JoinStep(Closed, top, c);
      if join.None? || join.value.Empty() {
        if x != top {
          JoinedFromEnds(c, more, x);
          var a, b :| a in [c] + more && b in [c] + more && EndsOf(x, a, b);
          assert a in [top] + rest && b in [top] + rest;
        } else {
          assert EndsOf(x, top, top);
        }
      } else {
        JoinedFromEnds(join.value, more, x);
        var a, b :| a in [join.value] + more && b in [join.value] + more && EndsOf(x, a, b);
        EndsOfJoin(top, c, x, a, b);
      }
    }
  }

  lemma {:induction false} EndsOfJoin(top: Interval, c: Interval, x: Interval, a: Interval, b: Interval)
    requires Closed.Fits(top) && Closed.Fits(c) && !top.Empty() && !c.Empty() && top.lower.value.AtMost(c.lower.value)
    requires Join(top, c).Some? && EndsOf(x, a, b)
    ensures var j := Join(top, c).value;
      var a' := if a == j then top else a;
      EndsOf(x, a', if b != j then b else if top.upper.Lt(c.upper) then c else top)
  {
  }

  /**
   On every table: the components are closed, keep clear of each other and cover the closures, and each
   begins and ends where memberships do.
   */
  lemma {:induction false} ComponentsMeaning(rows: Rows)
    ensures ClosedRun(Components(rows)) && Ordered(Components(rows))
    ensures forall p :: In(p, Components(rows)) <==> InClosure(rows, p)
  {
    ClosuresClosed(rows);
    ClosuresMeaning(rows);
    SortedIsArrangement(Closures(rows));
    JoinedMerged(Closed, Sorted(Closures(rows)));
  }

  lemma {:induction false} ComponentEnds(rows: Rows, x: Interval)
    requires x in Components(rows)
    ensures exists m, n :: m in rows && n in rows && EndsOf(x, Closure(m.activeDuring), Closure(n.activeDuring))
  {
    var s := Sorted(Closures(rows));
    ClosuresClosed(rows);
    SortedIsArrangement(Closures(rows));
    DropEmptyIdentity(s);
    JoinedFromEnds(s[0], s[1..], x);
    assert [s[0]] + s[1..] == s;
    var a, b :| a in s && b in s && EndsOf(x, a, b);
    ClosuresElements(rows, a);
    ClosuresElements(rows, b);
  }

  /** Whatever overlaps all closures overlaps all components. */
  lemma {:induction false} ComponentsOverlap(rows: Rows, during: Interval)
    requires forall m :: m in rows ==> during.Overlaps(Closure(m.activeDuring))
    ensures AllOverlap(during, Components(rows))
  {
    forall x | x in Components(rows)
      ensures during.Overlaps(x)
    {
      ComponentEnds(rows, x);
    }
  }

  ghost predicate Uniform(rows: Rows, user: nat, group: nat) {
    forall m :: m in rows ==> m.user == user && m.group == group
  }

  /** Where closures are disjoint, they are the components. */
  lemma {:induction false} ClosuresAreComponents(rows: Rows, user: nat, group: nat)
    requires Disjoint(rows) && Uniform(rows, user, group)
    ensures forall x :: x in Components(rows) <==> x in Closures(rows)
  {
    ArrangedClosures(rows, user, group);
  }

  // ----- the intervals of make_member_of -----

  /** The instant is lost: it is an excluded end of `during`, and an end of a component on the wrong side. */
  ghost predicate LostAt(rows: Rows, during: Interval, p: Instant) {
    !during.Empty() && Lost(Components(rows), during, p)
  }

  /** An empty `during` leaves the components; any other leaves one interval. */
  lemma {:induction false} MakeIntervalsForm(rows: Rows, during: Interval)
    requires forall m :: m in rows ==> during.Overlaps(Closure(m.activeDuring))
    ensures
      if during.Empty() then MakeIntervals(rows, during) == Components(rows)
      else Hull(Components(rows), during).Valid() && MakeIntervals(rows, during) == [Hull(Components(rows), during)]
  {
    ComponentsMeaning(rows);
    ComponentsOverlap(rows, during);
    if during.Empty() {
      EmptyAddsNothing(Components(rows), during);
    } else {
      HullIsJoined(Components(rows), during);
    }
  }

  /**
   The instants of the new memberships: those of `during` and of the closures of the memberships it
   touches, but for the ends that are lost.
   */
  lemma {:induction false} MakeIntervalsPoints(rows: Rows, during: Interval, p: Instant)
    requires forall m :: m in rows ==> during.Overlaps(Closure(m.activeDuring))
    ensures In(p, MakeIntervals(rows, during)) <==> (during.Has(p) || InClosure(rows, p)) && !LostAt(rows, during, p)
  {
    var left := Components(rows);
    ComponentsMeaning(rows);
    ComponentsOverlap(rows, during);
    MakeIntervalsForm(rows, during);
    if during.Empty() {
      EmptyMeaning(during);
    } else {
      var hull: Interval := Hull(left, during);
      assert [hull][1..] == [] && (In(p, [hull]) <==> hull.Has(p));
      if hull.Has(p) {
        HullInside(left, during, p);
      } else if (during.Has(p) || In(p, left)) && !Lost(left, during, p) {
        HullCovers(left, during, p);
      }
    }
  }

  lemma {:induction false} NewSolid(rows: Rows, during: Interval)
    requires forall m :: m in rows ==> during.Overlaps(Closure(m.activeDuring))
    ensures Separated(MakeIntervals(rows, during)) && NoneEmpty(MakeIntervals(rows, during))
    ensures !during.Empty() ==> |MakeIntervals(rows, during)| == 1
  {
    MakeIntervalsForm(rows, during);
    ComponentsMeaning(rows);
    if !during.Empty() {
      var hull: Interval := Hull(Components(rows), during);
      assert [hull][1..] == [];
      var p := InnerPoint(during);
      MakeIntervalsPoints(rows, during, p);
      assert In(p, [hull]);
    }
  }

  predicate BeginsClosed(x: Interval) {
    x.lower.value.At? ==> x.lower.closed
  }

  /** If `during` includes its begin, so do the new memberships. */
  lemma {:induction false} NewBegins(rows: Rows, during: Interval)
    requires forall m :: m in rows ==> during.Overlaps(Closure(m.activeDuring))
    requires BeginsClosed(during)
    ensures forall x :: x in MakeIntervals(rows, during) ==> BeginsClosed(x)
  {
    MakeIntervalsForm(rows, during);
    ComponentsMeaning(rows);
    assert Components(rows) != [] ==> Components(rows)[0] in Components(rows);
  }

  // ----- the effect -----

  lemma {:induction false} SelectedOrKept(rows: Rows, user: nat, group: nat, during: Interval, u: nat, g: nat,
                                          p: Instant)
    ensures MemberAt(Without(rows, Selected(rows, user, group, during)), u, g, p) ==> MemberAt(rows, u, g, p)
    ensures MemberAt(rows, u, g, p) ==>
            || MemberAt(Without(rows, Selected(rows, user, group, during)), u, g, p)
            || (u == user && g == group && InClosure(Selected(rows, user, group, during), p))
  {
    var selected := Selected(rows, user, group, during);
    if MemberAt(rows, u, g, p) {
      var m :| m in rows && m.user == u && m.group == g && m.activeDuring.Has(p);
      assert Closure(m.activeDuring).Has(p);
      assert m in selected || m in Without(rows, selected);
    }
  }

  /**
   The effect of `make_member_of`, for whatever interval on whatever table: the instants of `during` and
   of the closures of the memberships it touches are added; the lost ends are taken away, unless
   another membership has them; nothing else changes.
   */
  lemma {:induction false} MakeEffect(rows: Rows, id: nat, user: nat, group: nat, during: Interval)
    ensures
      var selected, after := Selected(rows, user, group, during), AfterMake(rows, id, user, group, during);
      && (!during.Empty() ==> |MakeIntervals(selected, during)| == 1)
      && (forall p :: MemberAt(after, user, group, p) <==>
           && (MemberAt(rows, user, group, p) || during.Has(p) || InClosure(selected, p))
           && (LostAt(selected, during, p) ==> MemberAt(Without(rows, selected), user, group, p)))
      && (forall u, g :: u != user || g != group ==> Untouched(rows, after, u, g))
  {
    var selected := Selected(rows, user, group, during);
    NewSolid(selected, during);
    ReplacedUntouched(rows, id, user, group, during, MakeIntervals(selected, during));
    forall p
      ensures MemberAt(AfterMake(rows, id, user, group, during), user, group, p) <==>
        && (MemberAt(rows, user, group, p) || during.Has(p) || InClosure(selected, p))
        && (LostAt(selected, during, p) ==> MemberAt(Without(rows, selected), user, group, p))
    {
      ReplacedMembers(rows, id, user, group, during, MakeIntervals(selected, during), user, group, p);
      SelectedOrKept(rows, user, group, during, user, group, p);
      MakeIntervalsPoints(selected, during, p);
    }
  }

  /** Where closures are disjoint, no other membership has a lost end. */
  lemma {:induction false} LostNotKept(rows: Rows, user: nat, group: nat, during: Interval, p: Instant)
    requires Inv(rows) && LostAt(Selected(rows, user, group, during), during, p)
    ensures !MemberAt(Without(rows, Selected(rows, user, group, during)), user, group, p)
  {
    var selected := Selected(rows, user, group, during);
    LostIsCovered(selected, during, p);
    var m :| m in selected && Closure(m.activeDuring).Has(p);
    if MemberAt(Without(rows, selected), user, group, p) {
      var n :| n in Without(rows, selected) && n.user == user && n.group == group && n.activeDuring.Has(p);
      OnlyOne(rows, m, n, p);
    }
  }

  lemma {:induction false} LostIsCovered(rows: Rows, during: Interval, p: Instant)
    requires LostAt(rows, during, p)
    ensures InClosure(rows, p)
  {
    var left := Components(rows);
    ComponentsMeaning(rows);
    var x :| x in left && (x.upper.value == At(p) || x.lower.value == At(p));
    assert x.Has(p);
    InMeaning(p, left);
  }

  /** With a closed `during` or a ray nothing is lost, and one membership takes the place of the selected ones. */
  lemma {:induction false} ClosedEffect(rows: Rows, id: nat, user: nat, group: nat, during: Interval)
    requires Closed.Fits(during)
    ensures
      var selected := Selected(rows, user, group, during);
      && |MakeIntervals(selected, during)| == 1
      && AfterMake(rows, id, user, group, during)
         == Without(rows, selected) + [Membership(id, user, group, MakeIntervals(selected, during)[0])]
      && forall p :: MakeIntervals(selected, during)[0].Has(p) <==> during.Has(p) || InClosure(selected, p)
    ensures forall u, g, p :: MemberAt(AfterMake(rows, id, user, group, during), u, g, p) <==>
      || MemberAt(rows, u, g, p)
      || (u == user && g == group && (during.Has(p) || InClosure(Selected(rows, user, group, during), p)))
  {
    var selected := Selected(rows, user, group, during);
    var out := MakeIntervals(selected, during);
    NewSolid(selected, during);
    assert out[1..] == [] && NewRows(id + 1, user, group, out[1..]) == [];
    forall p
      ensures out[0].Has(p) <==> during.Has(p) || InClosure(selected, p)
    {
      assert In(p, out) <==> out[0].Has(p);
      MakeIntervalsPoints(selected, during, p);
    }
    forall u, g, p
      ensures MemberAt(AfterMake(rows, id, user, group, during), u, g, p) <==>
        || MemberAt(rows, u, g, p)
        || (u == user && g == group && (during.Has(p) || InClosure(selected, p)))
    {
      MakeIntervalsPoints(selected, during, p);
      ReplacedMembers(rows, id, user, group, during, out, u, g, p);
      SelectedOrKept(rows, user, group, during, u, g, p);
    }
  }

  // ----- the exclusion constraint -----

  /** A membership left alone has an instant that is not lost in common with the closure of a selected one. */
  ghost predicate MakeCollides(rows: Rows, user: nat, group: nat, during: Interval) {
    exists n, p ::
      n in rows && Collision(rows, user, group, during, n, p) && !LostAt(Selected(rows, user, group, during), during, p)
  }

  ghost predicate Collision(rows: Rows, user: nat, group: nat, during: Interval, n: Membership, p: Instant) {
    && n.user == user && n.group == group && !IsSelected(n, user, group, during)
    && n.activeDuring.Has(p) && InClosure(Selected(rows, user, group, during), p)
  }

  /** A membership left alone has no instant of `during`. */
  lemma {:induction false} LeftAlone(user: nat, group: nat, during: Interval, n: Membership, p: Instant)
    requires n.user == user && n.group == group && !IsSelected(n, user, group, during) && n.activeDuring.Has(p)
    ensures !during.Has(p)
  {
    assert Closure(n.activeDuring).Has(p);
    if during.Has(p) {
      ConflictMeaning(during, Closure(n.activeDuring));
    }
  }

  /** The constraint refuses to join, for whatever interval on whatever table, exactly when there is a collision. */
  lemma {:induction false} MakeAdmittedIff(rows: Rows, id: nat, user: nat, group: nat, during: Interval)
    ensures Joinable(rows, id, user, group, during)
            <==> !MakeCollides(rows, user, group, during)
  {
    var selected := Selected(rows, user, group, during);
    var intervals := MakeIntervals(selected, during);
    NewSolid(selected, during);
    SeparatedUnconflicted(intervals);
    NewRowsAdmitted(Without(rows, selected), id, user, group, intervals);
    forall n | n in rows && n.user == user && n.group == group && !IsSelected(n, user, group, during)
      ensures (exists x :: x in intervals && Conflict(n.activeDuring, x)) <==>
              exists p :: Collision(rows, user, group, during, n, p) && !LostAt(selected, during, p)
    {
      NewConflict(rows, user, group, during, n);
    }
  }

  lemma {:induction false} NewConflict(rows: Rows, user: nat, group: nat, during: Interval, n: Membership)
    requires n.user == user && n.group == group && !IsSelected(n, user, group, during)
    ensures (exists x :: x in MakeIntervals(Selected(rows, user, group, during), during) && Conflict(n.activeDuring, x))
            <==> exists p ::
                   Collision(rows, user, group, during, n, p) && !LostAt(Selected(rows, user, group, during), during, p)
  {
    var selected := Selected(rows, user, group, during);
    var intervals := MakeIntervals(selected, during);
    if x :| x in intervals && Conflict(n.activeDuring, x) {
      ConflictMeaning(n.activeDuring, x);
      var p :| n.activeDuring.Has(p) && x.Has(p);
      InMeaning(p, intervals);
      MakeIntervalsPoints(selected, during, p);
      LeftAlone(user, group, during, n, p);
      assert Collision(rows, user, group, during, n, p);
    }
    if p :| Collision(rows, user, group, during, n, p) && !LostAt(selected, during, p) {
      MakeIntervalsPoints(selected, during, p);
      InMeaning(p, intervals);
      var x :| x in intervals && x.Has(p);
      ConflictMeaning(n.activeDuring, x);
    }
  }

  /** A membership left alone conflicts with the closure of a selected one. */
  ghost predicate ClosureCollides(rows: Rows, user: nat, group: nat, during: Interval) {
    exists m, n :: m in Selected(rows, user, group, during) && n in rows && ClosureConflict(user, group, during, m, n)
  }

  predicate ClosureConflict(user: nat, group: nat, during: Interval, m: Membership, n: Membership) {
    && n.user == user && n.group == group && !IsSelected(n, user, group, during)
    && Conflict(n.activeDuring, Closure(m.activeDuring))
  }

  lemma {:induction false} CollisionMeaning(rows: Rows, user: nat, group: nat, during: Interval)
    ensures ClosureCollides(rows, user, group, during) <==>
            exists n, p :: n in rows && Collision(rows, user, group, during, n, p)
  {
    var selected := Selected(rows, user, group, during);
    if m, n :| m in selected && n in rows && ClosureConflict(user, group, during, m, n) {
      ConflictMeaning(n.activeDuring, Closure(m.activeDuring));
      var p :| n.activeDuring.Has(p) && Closure(m.activeDuring).Has(p);
      assert Collision(rows, user, group, during, n, p);
    }
    if n, p :| n in rows && Collision(rows, user, group, during, n, p) {
      var m :| m in selected && Closure(m.activeDuring).Has(p);
      ConflictMeaning(n.activeDuring, Closure(m.activeDuring));
      assert ClosureConflict(user, group, during, m, n);
    }
  }

  lemma {:induction false} ClosedCollides(rows: Rows, user: nat, group: nat, during: Interval)
    requires Closed.Fits(during)
    ensures MakeCollides(rows, user, group, during) <==> ClosureCollides(rows, user, group, during)
  {
    CollisionMeaning(rows, user, group, during);
    assert forall p :: !LostAt(Selected(rows, user, group, during), during, p);
  }

  lemma ClosureCollidesMeaning(rows: Rows, user: nat, group: nat, during: Interval)
    ensures var selected := Selected(rows, user, group, during);
      !ClosureCollides(rows, user, group, during) <==>
      forall m, n :: m in selected && n in rows && n.user == user && n.group == group && n !in selected ==>
        !Conflict(n.activeDuring, Closure(m.activeDuring))
  {
    assert forall m, n :: n in rows && n.user == user && n.group == group ==>
      (ClosureConflict(user, group, during, m, n) <==>
       n !in Selected(rows, user, group, during) && Conflict(n.activeDuring, Closure(m.activeDuring)));
  }

  /** With a closed `during`: refused iff a membership left alone conflicts with the closure of a selected one. */
  lemma {:induction false} ClosedAdmittedIff(rows: Rows, id: nat, user: nat, group: nat, during: Interval)
    requires Closed.Fits(during)
    ensures var selected := Selected(rows, user, group, during);
      Joinable(rows, id, user, group, during) <==>
      forall m, n :: m in selected && n in rows && n.user == user && n.group == group && n !in selected ==>
        !Conflict(n.activeDuring, Closure(m.activeDuring))
  {
    MakeAdmittedIff(rows, id, user, group, during);
    ClosedCollides(rows, user, group, during);
    ClosureCollidesMeaning(rows, user, group, during);
  }

  /** The last of the components ends where `during` ends, and does not come before it. */
  ghost predicate EndLost(rows: Rows, during: Interval) {
    exists x :: x in Components(rows) && x.upper.value == during.upper.value && !x.Precedes(during)
  }

  /** With [x, y): as before, but for the instant y, which does not collide where it is lost. */
  lemma {:induction false} RightOpenAdmittedIff(rows: Rows, id: nat, user: nat, group: nat, during: Interval)
    requires RightOpen.Fits(during) && !during.Empty()
    ensures var selected := Selected(rows, user, group, during);
      Joinable(rows, id, user, group, during) <==>
      forall n, p :: n in rows && Collision(rows, user, group, during, n, p) ==>
        At(p) == during.upper.value && EndLost(selected, during)
  {
    MakeAdmittedIff(rows, id, user, group, during);
    var selected := Selected(rows, user, group, during);
    forall p
      ensures LostAt(selected, during, p) <==> At(p) == during.upper.value && EndLost(selected, during)
    {
    }
  }

  /** Where closures are disjoint, nothing collides. */
  lemma {:induction false} InvNeverCollides(rows: Rows, user: nat, group: nat, during: Interval)
    requires Inv(rows)
    ensures !ClosureCollides(rows, user, group, during) && !MakeCollides(rows, user, group, during)
  {
    CollisionMeaning(rows, user, group, during);
    forall m, n | m in Selected(rows, user, group, during) && n in rows
      ensures !ClosureConflict(user, group, during, m, n)
    {
      if n.user == user && n.group == group && !IsSelected(n, user, group, during) {
        DisjointPair(rows, m, n);
        ApartMeaning(m.activeDuring, n.activeDuring);
        ConflictMeaning(n.activeDuring, Closure(m.activeDuring));
      }
    }
  }

  /** The constraint admits new rows only so that the table stays exclusive. */
  lemma {:induction false} MakeKeepsExclusive(rows: Rows, id: nat, user: nat, group: nat, during: Interval)
    requires Exclusive(rows) && !MakeCollides(rows, user, group, during)
    ensures Exclusive(AfterMake(rows, id, user, group, during))
  {
    MakeAdmittedIff(rows, id, user, group, during);
    NewSolid(Selected(rows, user, group, during), during);
    ReplacedExclusive(rows, id, user, group, during, MakeIntervals(Selected(rows, user, group, during), during));
  }

  lemma {:induction false} MakeKeepsBegins(rows: Rows, id: nat, user: nat, group: nat, during: Interval)
    requires BeginsClosed(during)
    ensures AllBeginsIncluded(rows) ==> AllBeginsIncluded(AfterMake(rows, id, user, group, during))
    ensures BeginsIncluded(rows, user, group) ==> BeginsIncluded(AfterMake(rows, id, user, group, during), user, group)
  {
    NewBegins(Selected(rows, user, group, during), during);
    ReplacedBegins(rows, id, user, group, during, MakeIntervals(Selected(rows, user, group, during), during));
  }

  // ----- disjoint closures -----

  /** No membership of the user in the group that `during` leaves alone comes right next to it. */
  ghost predicate MakeSafe(rows: Rows, user: nat, group: nat, during: Interval) {
    during.Empty() ||
    forall n :: n in rows && n.user == user && n.group == group && !IsSelected(n, user, group, during) ==>
      Apart(during, n.activeDuring)
  }

  lemma {:induction false} NewApart(rows: Rows, user: nat, group: nat, during: Interval, n: Membership)
    requires Inv(rows) && n in rows && n.user == user && n.group == group && !IsSelected(n, user, group, during)
    ensures forall x :: x in MakeIntervals(Selected(rows, user, group, during), during) ==>
              (Apart(x, n.activeDuring) <==> during.Empty() || Apart(during, n.activeDuring))
  {
    var selected := Selected(rows, user, group, during);
    SelectedDisjoint(rows, user, group, during);
    MakeIntervalsForm(selected, during);
    ClosuresAreComponents(selected, user, group);
    ComponentsMeaning(selected);
    ComponentsOverlap(selected, during);
    forall x | x in Components(selected)
      ensures Apart(x, n.activeDuring)
    {
      ClosuresElements(selected, x);
      var m :| m in selected && x == Closure(m.activeDuring);
      DisjointPair(rows, m, n);
    }
    if !during.Empty() {
      HullApart(Components(selected), during, n.activeDuring);
    }
  }

  /** Closures of memberships stay disjoint exactly when no membership is left alone right next to `during`. */
  lemma {:induction false} MakeKeepsInvIff(rows: Rows, id: nat, user: nat, group: nat, during: Interval)
    requires Inv(rows)
    ensures Inv(AfterMake(rows, id, user, group, during)) <==> MakeSafe(rows, user, group, during)
  {
    var intervals := MakeIntervals(Selected(rows, user, group, during), during);
    NewSolid(Selected(rows, user, group, during), during);
    if MakeSafe(rows, user, group, during) {
      forall x, n | x in intervals && n in rows && n.user == user && n.group == group
        && !IsSelected(n, user, group, during)
        ensures Apart(x, n.activeDuring)
      {
        NewApart(rows, user, group, during, n);
      }
      ReplacedKeepsInv(rows, id, user, group, during, intervals);
    } else {
      var n :| n in rows && n.user == user && n.group == group && !IsSelected(n, user, group, during)
        && !Apart(during, n.activeDuring);
      UnsafeBreaks(rows, id, user, group, during, n);
    }
  }

  lemma {:induction false} UnsafeBreaks(rows: Rows, id: nat, user: nat, group: nat, during: Interval, n: Membership)
    requires Inv(rows) && n in rows && n.user == user && n.group == group && !IsSelected(n, user, group, during)
    requires !during.Empty() && !Apart(during, n.activeDuring)
    ensures !Inv(AfterMake(rows, id, user, group, during))
  {
    var selected := Selected(rows, user, group, during);
    var intervals := MakeIntervals(selected, during);
    MakeIntervalsForm(selected, during);
    NewApart(rows, user, group, during, n);
    NewRowsAre(id, user, group, intervals);
    assert intervals[0] in intervals;
    var m :| m in NewRows(id, user, group, intervals) && m.user == user && m.group == group
      && m.activeDuring == intervals[0];
    assert n in Without(rows, selected) && !Compatible(n, m);
    PairwiseConcat(Without(rows, selected), NewRows(id, user, group, intervals), Compatible);
  }

  lemma {:induction false} MakeAdmitted(rows: Rows, id: nat, user: nat, group: nat, during: Interval)
    requires Inv(rows)
    ensures Joinable(rows, id, user, group, during)
  {
    MakeAdmittedIff(rows, id, user, group, during);
    InvNeverCollides(rows, user, group, during);
  }

  // ----- the shapes of during that occur -----

  /** Closed intervals that are not apart overlap. */
  lemma {:induction false} CommonPoint(x: Interval, y: Interval)
    requires Closed.Fits(x) && Closed.Fits(y)
    ensures x.Overlaps(y) <==> !Apart(x, y)
  {
  }

  /** With a closed interval or a ray everything is safe. */
  lemma {:induction false} ClosedIsSafe(rows: Rows, user: nat, group: nat, during: Interval)
    requires Closed.Fits(during)
    ensures MakeSafe(rows, user, group, during)
  {
    forall n | n in rows && n.user == user && n.group == group && !IsSelected(n, user, group, during)
      ensures Apart(during, n.activeDuring)
    {
      CommonPoint(during, Closure(n.activeDuring));
    }
  }

  /** A membership of the user in the group begins right where `during` ends. */
  ghost predicate BeginsAtEnd(rows: Rows, user: nat, group: nat, during: Interval) {
    exists n :: n in rows && n.user == user && n.group == group && n.activeDuring.lower.value == during.upper.value
  }

  /** [x, y) is safe exactly when no membership begins at y. */
  lemma {:induction false} RightOpenSafeIff(rows: Rows, id: nat, user: nat, group: nat, during: Interval)
    requires Inv(rows) && RightOpen.Fits(during) && !during.Empty()
    ensures Inv(AfterMake(rows, id, user, group, during)) <==> !BeginsAtEnd(rows, user, group, during)
  {
    MakeKeepsInvIff(rows, id, user, group, during);
    forall n | n in rows && n.user == user && n.group == group
      ensures IsSelected(n, user, group, during) || Apart(during, n.activeDuring)
              <==> n.activeDuring.lower.value != during.upper.value
    {
      NextToEnd(n, during);
    }
  }

  lemma NextToEnd(n: Membership, during: Interval)
    requires RightOpen.Fits(during) && !during.Empty() && !n.activeDuring.Empty()
    ensures IsSelected(n, n.user, n.group, during) || Apart(during, n.activeDuring)
            <==> n.activeDuring.lower.value != during.upper.value
  {
  }

  /** It ends, included, where `during` ends, and begins inside of `during`. */
  predicate SharesEnd(m: Membership, during: Interval) {
    && m.activeDuring.upper == Bound(during.upper.value, true)
    && m.activeDuring.lower.value.Below(during.upper.value)
    && !m.activeDuring.lower.Lt(during.lower)
  }

  ghost predicate EndsAtEnd(rows: Rows, user: nat, group: nat, during: Interval) {
    exists m :: m in rows && m.user == user && m.group == group && SharesEnd(m, during)
  }

  /** Joining during [x, y) takes y away exactly when a membership ends at y and begins at x or later. */
  lemma {:induction false} RightOpenLosesIff(rows: Rows, id: nat, user: nat, group: nat, during: Interval)
    requires Inv(rows) && RightOpen.Fits(during) && !during.Empty()
    ensures (exists p ::
               MemberAt(rows, user, group, p) && !MemberAt(AfterMake(rows, id, user, group, during), user, group, p))
            <==> EndsAtEnd(rows, user, group, during)
  {
    MakeEffect(rows, id, user, group, during);
    if EndsAtEnd(rows, user, group, during) {
      var m :| m in rows && m.user == user && m.group == group && SharesEnd(m, during);
      EndIsLost(rows, user, group, during, m);
      LostNotKept(rows, user, group, during, during.upper.value.t);
      assert m.activeDuring.Has(during.upper.value.t);
    } else {
      forall p | MemberAt(rows, user, group, p)
        ensures !LostAt(Selected(rows, user, group, during), during, p)
      {
        if LostAt(Selected(rows, user, group, during), during, p) {
          LostEnds(rows, user, group, during, p);
        }
      }
    }
  }

  lemma {:induction false} EndIsLost(rows: Rows, user: nat, group: nat, during: Interval, m: Membership)
    requires Inv(rows) && RightOpen.Fits(during) && !during.Empty()
    requires m in rows && m.user == user && m.group == group && SharesEnd(m, during)
    ensures LostAt(Selected(rows, user, group, during), during, during.upper.value.t)
  {
    var selected := Selected(rows, user, group, during);
    assert m in selected;
    SelectedDisjoint(rows, user, group, during);
    ClosuresAreComponents(selected, user, group);
    ClosuresElements(selected, Closure(m.activeDuring));
    assert Closure(m.activeDuring) in Components(selected);
  }

  lemma {:induction false} LostByRow(rows: Rows, user: nat, group: nat, during: Interval, p: Instant)
      returns (m: Membership)
    requires Inv(rows) && RightOpen.Fits(during) && LostAt(Selected(rows, user, group, during), during, p)
    ensures m in Selected(rows, user, group, during) && during.upper.value == At(p)
    ensures m.activeDuring.upper.value == At(p) && !Closure(m.activeDuring).Precedes(during)
  {
    var selected := Selected(rows, user, group, during);
    SelectedDisjoint(rows, user, group, during);
    ClosuresAreComponents(selected, user, group);
    var x :| x in Components(selected) && x.upper.value == At(p) && !x.Precedes(during);
    ClosuresElements(selected, x);
    m :| m in selected && x == Closure(m.activeDuring);
  }

  lemma {:induction false} LostEnds(rows: Rows, user: nat, group: nat, during: Interval, p: Instant)
    requires Inv(rows) && RightOpen.Fits(during) && !during.Empty() && MemberAt(rows, user, group, p)
    requires LostAt(Selected(rows, user, group, during), during, p)
    ensures EndsAtEnd(rows, user, group, during)
  {
    var m := LostByRow(rows, user, group, during, p);
    var n :| n in rows && n.user == user && n.group == group && n.activeDuring.Has(p);
    OnlyOne(rows, m, n, p);
    SharesItsEnd(m, during, p);
  }

  lemma SharesItsEnd(m: Membership, during: Interval, p: Instant)
    requires RightOpen.Fits(during) && !during.Empty() && during.upper.value == At(p) && m.activeDuring.Has(p)
    requires m.activeDuring.upper.value == At(p) && !Closure(m.activeDuring).Precedes(during)
    requires IsSelected(m, m.user, m.group, during)
    ensures SharesEnd(m, during)
  {
  }

  // ----- concrete intervals -----

  function ClosedOpen(begin: Instant, end: Instant): Interval
    requires begin < end
  {
    Span(Bound(At(begin), true), Bound(At(end), false))
  }

  lemma {:induction false} AloneInv(m: Membership)
    requires !m.activeDuring.Empty()
    ensures Inv([m])
  {
    assert [m][1..] == [];
  }

  /** Joining during [0, 1) next to [1, 2) is admitted and leaves the invariant ... */
  lemma {:induction false} RightOpenDuringTouches(user: nat, group: nat)
    ensures
      var m, n := Membership(0, user, group, ClosedOpen(1.0, 2.0)), Membership(1, user, group, ClosedOpen(0.0, 1.0));
      && Inv([m]) && Selected([m], user, group, ClosedOpen(0.0, 1.0)) == []
      && AfterMake([m], 1, user, group, ClosedOpen(0.0, 1.0)) == [m, n] && AdmitsAll([m], [n])
      && !Inv([m, n])
  {
    var m, n := Membership(0, user, group, ClosedOpen(1.0, 2.0)), Membership(1, user, group, ClosedOpen(0.0, 1.0));
    AloneInv(m);
    assert [m][1..] == [] && Selected([m], user, group, ClosedOpen(0.0, 1.0)) == [];
    WithoutNothing([m]);
    MakeIntervalsForm([], ClosedOpen(0.0, 1.0));
    assert [ClosedOpen(0.0, 1.0)][1..] == [] && NewRows(2, user, group, []) == [];
    assert NewRows(1, user, group, [ClosedOpen(0.0, 1.0)]) == [n] && [m] + [n] == [m, n];
    MakeAdmitted([m], 1, user, group, ClosedOpen(0.0, 1.0));
    RightOpenSafeIff([m], 1, user, group, ClosedOpen(0.0, 1.0));
    assert m in [m];
  }

  /** The two memberships that touch: the first is not selected by what ends at 1 or before. */
  lemma {:induction false} SelectedYounger(user: nat, group: nat, during: Interval)
    requires during.upper == Bound(At(1.0), false) || during.upper.value.Below(At(1.0))
    requires during.Overlaps(Span(Bound(At(0.0), true), Bound(At(1.0), true)))
    ensures
      var m, n := Membership(0, user, group, ClosedOpen(1.0, 2.0)), Membership(1, user, group, ClosedOpen(0.0, 1.0));
      && Selected([m, n], user, group, during) == [n] && !IsSelected(m, user, group, during)
      && Components([n]) == [Span(Bound(At(0.0), true), Bound(At(1.0), true))]
      && Collision([m, n], user, group, during, m, 1.0)
  {
    var m, n := Membership(0, user, group, ClosedOpen(1.0, 2.0)), Membership(1, user, group, ClosedOpen(0.0, 1.0));
    var x: Interval := Span(Bound(At(0.0), true), Bound(At(1.0), true));
    assert [n][1..] == [] && [m, n][1..] == [n];
    assert Selected([n], user, group, during) == [n] + Selected([], user, group, during);
    assert Selected([m, n], user, group, during) == Selected([m, n][1..], user, group, during) == [n];
    assert Closures([n]) == [x] && [x][1..] == [];
    SortedIdentity([x]);
    JoinedIdentity([x]);
    assert n in [n] && Closure(n.activeDuring).Has(1.0);
  }

  /** ... so that extending the younger membership, even by one instant, violates the exclusion ... */
  lemma {:induction false} RightOpenDuringCollides(user: nat, group: nat)
    ensures
      var m, n := Membership(0, user, group, ClosedOpen(1.0, 2.0)), Membership(1, user, group, ClosedOpen(0.0, 1.0));
      !Joinable([m, n], 2, user, group, Moment(0.0))
  {
    var m, n := Membership(0, user, group, ClosedOpen(1.0, 2.0)), Membership(1, user, group, ClosedOpen(0.0, 1.0));
    SelectedYounger(user, group, Moment(0.0));
    MakeAdmittedIff([m, n], 2, user, group, Moment(0.0));
    assert m in [m, n] && !LostAt([n], Moment(0.0), 1.0);
  }

  /** ... but joining during [0, 1) again does not, since the instant 1 is lost ... */
  lemma {:induction false} RightOpenDuringSpares(user: nat, group: nat)
    ensures
      var m, n := Membership(0, user, group, ClosedOpen(1.0, 2.0)), Membership(1, user, group, ClosedOpen(0.0, 1.0));
      !MakeCollides([m, n], user, group, ClosedOpen(0.0, 1.0))
        && ClosureCollides([m, n], user, group, ClosedOpen(0.0, 1.0))
  {
    var m, n := Membership(0, user, group, ClosedOpen(1.0, 2.0)), Membership(1, user, group, ClosedOpen(0.0, 1.0));
    var during := ClosedOpen(0.0, 1.0);
    SelectedYounger(user, group, during);
    CollisionMeaning([m, n], user, group, during);
    assert m in [m, n];
    forall k, p | k in [m, n] && Collision([m, n], user, group, during, k, p)
      ensures LostAt([n], during, p)
    {
      assert k == m && p == 1.0;
      assert Components([n])[0] in Components([n]);
    }
  }

  /** ... and joining during [0, 1) with [0, 1] takes the last instant away. */
  lemma {:induction false} RightOpenDuringLoses(id: nat, user: nat, group: nat)
    ensures var m := Membership(0, user, group, Span(Bound(At(0.0), true), Bound(At(1.0), true)));
      Inv([m]) && MemberAt([m], user, group, 1.0)
        && !MemberAt(AfterMake([m], id, user, group, ClosedOpen(0.0, 1.0)), user, group, 1.0)
  {
    var m := Membership(0, user, group, Span(Bound(At(0.0), true), Bound(At(1.0), true)));
    AloneInv(m);
    assert m in [m] && m.activeDuring.Has(1.0);
    EndIsLost([m], user, group, ClosedOpen(0.0, 1.0), m);
    LostNotKept([m], user, group, ClosedOpen(0.0, 1.0), 1.0);
    MakeEffect([m], id, user, group, ClosedOpen(0.0, 1.0));
  }

  // ----- joining from an instant on -----

  /**
   The user is in the group from t on; before t nothing is lost, and nothing is gained if no membership
   excludes its begin.
   */
  ghost predicate InFrom(before: Rows, after: Rows, user: nat, group: nat, t: Instant) {
    && (forall p :: p >= t ==> MemberAt(after, user, group, p))
    && (forall p :: p < t && MemberAt(before, user, group, p) ==> MemberAt(after, user, group, p))
    && (BeginsIncluded(before, user, group) ==>
          forall p :: p < t && MemberAt(after, user, group, p) ==> MemberAt(before, user, group, p))
  }

  /** Before t, only an excluded begin can be gained. */
  lemma {:induction false} PastOfClosures(rows: Rows, user: nat, group: nat, t: Instant, p: Instant)
    requires BeginsIncluded(rows, user, group) && p < t
    requires InClosure(Selected(rows, user, group, StartingFrom(t)), p)
    ensures MemberAt(rows, user, group, p)
  {
    var m :| m in Selected(rows, user, group, StartingFrom(t)) && Closure(m.activeDuring).Has(p);
    assert m in rows && m.activeDuring.Has(p);
  }

  lemma {:induction false} MadeFrom(rows: Rows, id: nat, user: nat, group: nat, t: Instant)
    ensures InFrom(rows, AfterMake(rows, id, user, group, StartingFrom(t)), user, group, t)
    ensures forall u, g :: u != user || g != group ==>
              Untouched(rows, AfterMake(rows, id, user, group, StartingFrom(t)), u, g)
  {
    var after := AfterMake(rows, id, user, group, StartingFrom(t));
    MakeEffect(rows, id, user, group, StartingFrom(t));
    forall p
      ensures p >= t ==> MemberAt(after, user, group, p)
      ensures p < t && MemberAt(rows, user, group, p) ==> MemberAt(after, user, group, p)
      ensures BeginsIncluded(rows, user, group) && p < t && MemberAt(after, user, group, p) ==>
                MemberAt(rows, user, group, p)
    {
      if BeginsIncluded(rows, user, group) && p < t && InClosure(Selected(rows, user, group, StartingFrom(t)), p) {
        PastOfClosures(rows, user, group, t, p);
      }
    }
  }

  /** From t on, the closure of a selected membership adds no more than its begin. */
  lemma {:induction false} ClearFrom(rows: Rows, user: nat, group: nat, t: Instant, n: Membership, p: Instant)
    requires Clear(rows) && n in rows && n.user == user && n.group == group
             && !IsSelected(n, user, group, StartingFrom(t))
    requires InClosure(Selected(rows, user, group, StartingFrom(t)), p)
    ensures !Begun(n.activeDuring).Has(p)
  {
    var m :| m in Selected(rows, user, group, StartingFrom(t)) && Closure(m.activeDuring).Has(p);
    if Begun(n.activeDuring).Has(p) {
      assert Begun(m.activeDuring).Has(p);
      ConflictMeaning(Begun(m.activeDuring), Begun(n.activeDuring));
      ConflictMeaning(Begun(n.activeDuring), Begun(m.activeDuring));
      PairwisePair(rows, ClearOf, m, n);
      assert false;
    }
  }

  /** New intervals that hold nothing but instants from t on and of closures keep clear of the others. */
  lemma {:induction false} ReplacedFrom(rows: Rows, id: nat, user: nat, group: nat, t: Instant,
                                        intervals: seq<Interval>)
    requires Clear(rows) && Separated(intervals) && NoneEmpty(intervals)
    requires forall x :: x in intervals ==> BeginsClosed(x)
    requires forall p :: In(p, intervals) ==> p >= t || InClosure(Selected(rows, user, group, StartingFrom(t)), p)
    ensures Clear(Replaced(rows, id, user, group, StartingFrom(t), intervals))
    ensures AdmitsAll(Without(rows, Selected(rows, user, group, StartingFrom(t))), NewRows(id, user, group, intervals))
  {
    forall n, x | n in rows && n.user == user && n.group == group && !IsSelected(n, user, group, StartingFrom(t))
                  && x in intervals
      ensures !Conflict(Begun(n.activeDuring), Begun(x))
    {
      ConflictMeaning(Begun(n.activeDuring), Begun(x));
      if p :| Begun(n.activeDuring).Has(p) && Begun(x).Has(p) {
        assert x.Has(p);
        InMeaning(p, intervals);
        if p < t {
          ClearFrom(rows, user, group, t, n, p);
        }
        assert false;
      }
    }
    ReplacedClear(rows, id, user, group, StartingFrom(t), intervals);
  }

  /** On a clear table, also where memberships touch, joining from t on is never refused, and keeps it clear. */
  lemma {:induction false} MakeFromKeepsOrder(rows: Rows, id: nat, user: nat, group: nat, t: Instant)
    requires Clear(rows)
    ensures !MakeCollides(rows, user, group, StartingFrom(t))
    ensures KeepsOrder(rows, AfterMake(rows, id, user, group, StartingFrom(t)))
  {
    var selected := Selected(rows, user, group, StartingFrom(t));
    var intervals := MakeIntervals(selected, StartingFrom(t));
    NewSolid(selected, StartingFrom(t));
    NewBegins(selected, StartingFrom(t));
    forall p | In(p, intervals)
      ensures p >= t || InClosure(selected, p)
    {
      MakeIntervalsPoints(selected, StartingFrom(t), p);
    }
    ReplacedFrom(rows, id, user, group, t, intervals);
    MakeAdmittedIff(rows, id, user, group, StartingFrom(t));
    MakeKeepsBegins(rows, id, user, group, StartingFrom(t));
    if Inv(rows) {
      ClosedIsSafe(rows, user, group, StartingFrom(t));
      MakeKeepsInvIff(rows, id, user, group, StartingFrom(t));
    }
  }

  /** Whatever interval a user joins during, a table with disjoint closures stays clear if the begin is included. */
  lemma {:induction false} MakeFromInvClear(rows: Rows, id: nat, user: nat, group: nat, during: Interval)
    requires Inv(rows) && BeginsClosed(during)
    ensures Clear(AfterMake(rows, id, user, group, during))
  {
    var selected := Selected(rows, user, group, during);
    var intervals := MakeIntervals(selected, during);
    InvIsClear(rows);
    NewSolid(selected, during);
    NewBegins(selected, during);
    forall n, x | n in rows && n.user == user && n.group == group && !IsSelected(n, user, group, during)
      && x in intervals
      ensures !Conflict(Begun(n.activeDuring), Begun(x))
    {
      ConflictMeaning(Begun(n.activeDuring), Begun(x));
      if p :| Begun(n.activeDuring).Has(p) && Begun(x).Has(p) {
        assert x.Has(p) && Closure(n.activeDuring).Has(p);
        InMeaning(p, intervals);
        InvCovers(rows, user, group, during, n, p);
        assert false;
      }
    }
    ReplacedClear(rows, id, user, group, during, intervals);
  }

  lemma {:induction false} InvCovers(rows: Rows, user: nat, group: nat, during: Interval, n: Membership, p: Instant)
    requires Inv(rows) && n in rows && n.user == user && n.group == group && !IsSelected(n, user, group, during)
    requires Closure(n.activeDuring).Has(p)
    ensures !In(p, MakeIntervals(Selected(rows, user, group, during), during))
  {
    var selected := Selected(rows, user, group, during);
    MakeIntervalsPoints(selected, during, p);
    if during.Has(p) {
      ConflictMeaning(during, Closure(n.activeDuring));
    }
    if m :| m in selected && Closure(m.activeDuring).Has(p) {
      OnlyOne(rows, m, n, p);
    }
  }
}
