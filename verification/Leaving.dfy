/**
 What `remove_member_of` of `pycroft/lib/membership.py` does to the memberships of a user in a group, for
 every interval it may be given.
 */
module Leaving {
  import opened Wrappers
  import opened Intervals
  import opened IntervalSets
  import opened SetAlgebra
  import opened Memberships
  import opened MembershipInvariant
  import opened Joining

  // ----- the gaps around an interval -----

  /** The two gaps around a point whose begin is excluded meet, and become one. */
  predicate GapsMeet(during: Interval) {
    during.lower.value == during.upper.value && !during.lower.closed
  }

  /** What lies before and what lies after an interval. */
  function GapsAround(during: Interval): seq<Interval> {
    if GapsMeet(during) then [UNBOUNDED] else BothGaps(during)
  }

  function BothGaps(during: Interval): seq<Interval> {
    Leading(during) + if during.upper.Unbounded() then [] else [Span(during.upper.Invert(), Bound(PosInf, false))]
  }

  lemma One(g: Interval)
    requires !g.Empty()
    ensures Separated([g]) && Ordered([g]) && NoneEmpty([g]) && Mangled(Iterable([g])) == [g]
  {
    assert [g][1..] == [];
    SortedIdentity([g]);
    JoinedIdentity([g]);
  }

  /** The iterable branch of the constructor leaves two gaps as they are, or joins them. */
  lemma {:induction false} TwoGaps(a: Interval, b: Interval)
    requires a.lower.value.NegInf? && b.upper.value.PosInf? && a.upper.value.At? && b.lower.value.At?
    requires a.upper.value.AtMost(b.lower.value)
    ensures Mangled(Iterable([a, b]))
            == if a.upper.value == b.lower.value && a.upper.closed then [UNBOUNDED] else [a, b]
    ensures !(a.upper.value == b.lower.value && a.upper.closed) ==> Ordered([a, b])
    ensures a.upper.value.Below(b.lower.value) ==> Separated([a, b])
  {
    assert [a, b][1..] == [b] && [b][1..] == [];
    assert Sorted([b]) == Inserted(b, []) == [b];
    assert ![b][0].Precedes(a) && Inserted(a, [b]) == [a] + [b];
    assert Sorted([a, b]) == Inserted(a, Sorted([a, b][1..])) == [a, b];
    assert NoneEmpty([a, b]);
    DropEmptyIdentity([a, b]);
    assert Joined([a, b]) == JoinedFrom(a, [b]);
    assert JoinedFrom(b, []) == [b] && JoinedFrom(UNBOUNDED, []) == [UNBOUNDED];
    assert [a] + [b] == [a, b];
  }

  lemma {:induction false} GapsOf(during: Interval)
    ensures Complemented([during]) == Some(BothGaps(during))
    ensures Mangled(Iterable(BothGaps(during))) == GapsAround(during)
    ensures Ordered(GapsAround(during)) && |GapsAround(during)| <= 2
    ensures |GapsAround(during)| <= 1 || during.lower.value.Below(during.upper.value) ==> Separated(GapsAround(during))
  {
    assert [during][1..] == [];
    One(UNBOUNDED);
    if during.lower.Unbounded() || during.upper.Unbounded() {
      if !during.lower.Unbounded() {
        assert BothGaps(during) == [Span(Bound(NegInf, false), during.lower.Invert())];
        One(BothGaps(during)[0]);
      } else if !during.upper.Unbounded() {
        assert BothGaps(during) == [Span(during.upper.Invert(), Bound(PosInf, false))];
        One(BothGaps(during)[0]);
      } else {
        assert BothGaps(during) == [];
      }
    } else {
      var a: Interval, b: Interval :=
        Span(Bound(NegInf, false), during.lower.Invert()), Span(during.upper.Invert(), Bound(PosInf, false));
      assert BothGaps(during) == [a, b];
      TwoGaps(a, b);
    }
  }

  // ----- the pieces -----

  /** A nonempty piece of a lies in b. */
  predicate Piece(a: Interval, b: Interval) {
    Intersect(a, b).Some? && !Intersect(a, b).value.Empty()
  }

  /** At most one piece of each. */
  ghost predicate OnePieceEach(left: seq<Interval>, right: seq<Interval>) {
    |right| == 2 ==> forall a :: a in left ==> !(Piece(a, right[0]) && Piece(a, right[1]))
  }

  lemma {:induction false} PiecesSeparated(left: seq<Interval>, right: seq<Interval>)
    requires Separated(left) && Ordered(right) && |right| <= 2 && OnePieceEach(left, right)
    ensures Separated(Intersected(left, right))
    decreases |left| + |right|
  {
    if left != [] && right != [] {
      var more :=
        if left[0].upper.Lt(right[0].upper) then Intersected(left[1..], right) else Intersected(left, right[1..]);
      if left[0].upper.Lt(right[0].upper) {
        PiecesSeparated(left[1..], right);
      } else {
        PiecesSeparated(left, right[1..]);
      }
      if Piece(left[0], right[0]) {
        forall y | y in more
          ensures WellBefore(Intersect(left[0], right[0]).value, y)
        {
          PieceBehind(left, right, y);
        }
      }
      FormPrepend(left[0], right[0], more);
      assert !Piece(left[0], right[0]) ==> Intersected(left, right) == [] + more == more;
    }
  }

  lemma {:induction false} PieceBehind(left: seq<Interval>, right: seq<Interval>, y: Interval)
    requires Separated(left) && Ordered(right) && |right| <= 2 && OnePieceEach(left, right)
    requires left != [] && right != [] && Piece(left[0], right[0])
    requires y in Intersected(left[1..], right) || y in Intersected(left, right[1..])
    ensures WellBefore(Intersect(left[0], right[0]).value, y)
  {
    var x := Intersect(left[0], right[0]).value;
    assert left[0] in left;
    if y in Intersected(left[1..], right) {
      IntersectedFrom(left[1..], right, y);
      var c, d :| c in left[1..] && d in right && FromPair(y, c, d);
      PairBefore(x, y, left[0], right[0], c, d);
    } else {
      IntersectedFrom(left, right[1..], y);
      var c, d :| c in left && d in right[1..] && FromPair(y, c, d);
      assert |right| == 2 && d == right[1] && Piece(c, right[1]);
      assert c != left[0] && c in left[1..];
      PairBefore(x, y, left[0], right[0], c, d);
    }
  }

  /** `during` is an instant inside the membership (or, if it is empty, at its end), and cuts it in two. */
  predicate Cuts(during: Interval, m: Interval) {
    && during.lower.value == during.upper.value && during.lower.closed
    && m.lower.value.Below(during.lower.value)
    && (if during.upper.closed then during.upper.value.Below(m.upper.value)
        else during.upper.value.AtMost(m.upper.value))
  }

  lemma {:induction false} CutsMeaning(during: Interval, m: Interval)
    requires !m.Empty() && |GapsAround(during)| == 2
    ensures var gaps := GapsAround(during);
      during.lower.value == during.upper.value ==>
        (Piece(Closure(m), gaps[0]) && Piece(Closure(m), gaps[1]) <==> Cuts(during, m))
  {
  }

  /** On every table: what remains of a component in front of or behind `during`. */
  lemma {:induction false} PiecesAre(rows: Rows, during: Interval)
    ensures RemoveIntervals(rows, during) == Intersected(Components(rows), GapsAround(during))
    ensures NoneEmpty(RemoveIntervals(rows, during))
    ensures forall x :: x in RemoveIntervals(rows, during) <==>
              exists a, g :: a in Components(rows) && g in GapsAround(during) && FromPair(x, a, g)
  {
    var left, right := Components(rows), GapsAround(during);
    ComponentsMeaning(rows);
    GapsOf(during);
    assert RemoveIntervals(rows, during) == Intersected(left, right);
    IntersectedForm(left, right);
    forall x
      ensures x in Intersected(left, right) <==> exists a, g :: a in left && g in right && FromPair(x, a, g)
    {
      if x in Intersected(left, right) {
        IntersectedFrom(left, right, x);
      }
      if a, g :| a in left && g in right && FromPair(x, a, g) {
        IntersectedAll(left, right, a, g, x);
      }
    }
  }

  /** Where closures are disjoint: what remains of a closure in front of or behind `during`. */
  lemma {:induction false} RemovePieces(rows: Rows, user: nat, group: nat, during: Interval)
    requires Disjoint(rows) && Uniform(rows, user, group)
    ensures NoneEmpty(RemoveIntervals(rows, during))
    ensures forall x :: x in RemoveIntervals(rows, during) <==>
              exists m, g :: m in rows && g in GapsAround(during) && FromPair(x, Closure(m.activeDuring), g)
  {
    PiecesAre(rows, during);
    ClosuresAreComponents(rows, user, group);
    forall x
      ensures x in RemoveIntervals(rows, during) <==>
              exists m, g :: m in rows && g in GapsAround(during) && FromPair(x, Closure(m.activeDuring), g)
    {
      if x in RemoveIntervals(rows, during) {
        var a, g :| a in Components(rows) && g in GapsAround(during) && FromPair(x, a, g);
        ClosuresElements(rows, a);
      }
      if m, g :| m in rows && g in GapsAround(during) && FromPair(x, Closure(m.activeDuring), g) {
        ClosuresElements(rows, Closure(m.activeDuring));
        assert Closure(m.activeDuring) in Components(rows);
      }
    }
  }

  // ----- the points -----

  /** An included end of `during` that is an end of a: the pairwise intersection keeps it. */
  predicate Stays(a: Interval, during: Interval, p: Instant) {
    || (during.lower == Bound(At(p), true) && a.upper.value == At(p) && a.lower.value.Below(At(p)))
    || (during.upper == Bound(At(p), true) && a.lower.value == At(p) && At(p).Below(a.upper.value))
  }

  /** p is left of a. */
  ghost predicate LeftOf(a: Interval, during: Interval, p: Instant) {
    exists g :: g in GapsAround(during) && Piece(a, g) && Intersect(a, g).value.Has(p)
  }

  lemma {:induction false} LeftOfIff(a: Interval, during: Interval, p: Instant)
    requires Closed.Fits(a) && !a.Empty()
    ensures LeftOf(a, during, p) <==> a.Has(p) && (!during.Has(p) || Stays(a, during, p))
  {
    if g :| g in GapsAround(during) && Piece(a, g) && Intersect(a, g).value.Has(p) {
      GapPoint(a, during, g, p);
    }
    if a.Has(p) && (!during.Has(p) || Stays(a, during, p)) {
      var g := PointGap(a, during, p);
    }
  }

  lemma {:induction false} GapPoint(a: Interval, during: Interval, g: Interval, p: Instant)
    requires Closed.Fits(a) && !a.Empty() && g in GapsAround(during) && Piece(a, g) && Intersect(a, g).value.Has(p)
    ensures a.Has(p) && (!during.Has(p) || Stays(a, during, p))
  {
  }

  /** p lies in the gap before `during`, or is an end that this gap leaves. */
  predicate InFront(a: Interval, during: Interval, p: Instant) {
    || At(p).Below(during.lower.value)
    || (At(p) == during.lower.value && (!during.lower.closed || (a.lower.value.Below(At(p)) && a.upper.value == At(p))))
  }

  lemma {:induction false} PointGap(a: Interval, during: Interval, p: Instant) returns (g: Interval)
    requires Closed.Fits(a) && !a.Empty() && a.Has(p) && (!during.Has(p) || Stays(a, during, p))
    ensures g in GapsAround(during) && Piece(a, g) && Intersect(a, g).value.Has(p)
  {
    if GapsMeet(during) {
      g := UNBOUNDED;
    } else if InFront(a, during, p) {
      g := Span(Bound(NegInf, false), during.lower.Invert());
      assert GapsAround(during)[0] == g;
    } else {
      g := Span(during.upper.Invert(), Bound(PosInf, false));
      assert GapsAround(during)[|GapsAround(during)| - 1] == g;
    }
  }

  /** An end of `during` at which a component begins or ends stays. */
  ghost predicate StaysAt(rows: Rows, during: Interval, p: Instant) {
    exists a :: a in Components(rows) && Stays(a, during, p)
  }

  /**
   The instants that are left, on every table: those of the closures outside of `during`, and the ends
   that stay.
   */
  lemma {:induction false} RemoveIntervalsPoints(rows: Rows, during: Interval, p: Instant)
    ensures In(p, RemoveIntervals(rows, during)) <==>
            InClosure(rows, p) && (during.Has(p) ==> StaysAt(rows, during, p))
  {
    var left, out := Components(rows), RemoveIntervals(rows, during);
    ComponentsMeaning(rows);
    PiecesAre(rows, during);
    InMeaning(p, out);
    InMeaning(p, left);
    if x :| x in out && x.Has(p) {
      var a, g :| a in left && g in GapsAround(during) && FromPair(x, a, g);
      assert LeftOf(a, during, p);
      LeftOfIff(a, during, p);
    }
    if InClosure(rows, p) && (during.Has(p) ==> StaysAt(rows, during, p)) {
      var a :| a in left && a.Has(p) && (during.Has(p) ==> Stays(a, during, p)) by {
        StayingPoint(left, during, p);
      }
      LeftOfIff(a, during, p);
      var g :| g in GapsAround(during) && Piece(a, g) && Intersect(a, g).value.Has(p);
      assert FromPair(Intersect(a, g).value, a, g);
    }
  }

  lemma {:induction false} StayingPoint(left: seq<Interval>, during: Interval, p: Instant)
    requires AllFit(Closed, left) && (exists a :: a in left && a.Has(p))
    requires during.Has(p) ==> exists a :: a in left && Stays(a, during, p)
    ensures exists a :: a in left && a.Has(p) && (during.Has(p) ==> Stays(a, during, p))
  {
    if during.Has(p) {
      var a :| a in left && Stays(a, during, p);
      assert a.Has(p);
    }
  }

  /**
   The effect of `remove_member_of`, for whatever interval on whatever table: the instants of `during`
   are taken away, but for the ends that stay; the closures of the memberships it touches are added
   outside of it; nothing else changes.
   */
  lemma {:induction false} RemoveEffect(rows: Rows, id: nat, user: nat, group: nat, during: Interval)
    ensures
      var selected, after := Selected(rows, user, group, during), AfterRemove(rows, id, user, group, during);
      && (forall p :: MemberAt(after, user, group, p) <==>
           && (MemberAt(rows, user, group, p) || InClosure(selected, p))
           && (during.Has(p) ==> StaysAt(selected, during, p)))
      && (forall u, g :: u != user || g != group ==> Untouched(rows, after, u, g))
  {
    var selected := Selected(rows, user, group, during);
    ReplacedUntouched(rows, id, user, group, during, RemoveIntervals(selected, during));
    forall p
      ensures MemberAt(AfterRemove(rows, id, user, group, during), user, group, p) <==>
        && (MemberAt(rows, user, group, p) || InClosure(selected, p))
        && (during.Has(p) ==> StaysAt(selected, during, p))
    {
      ReplacedMembers(rows, id, user, group, during, RemoveIntervals(selected, during), user, group, p);
      SelectedOrKept(rows, user, group, during, user, group, p);
      RemoveIntervalsPoints(selected, during, p);
      if MemberAt(Without(rows, selected), user, group, p) {
        var n :| n in Without(rows, selected) && n.user == user && n.group == group && n.activeDuring.Has(p);
        LeftAlone(user, group, during, n, p);
      }
      if StaysAt(selected, during, p) {
        StaysCovered(selected, during, p);
      }
    }
  }

  lemma {:induction false} StaysCovered(rows: Rows, during: Interval, p: Instant)
    requires StaysAt(rows, during, p)
    ensures InClosure(rows, p)
  {
    ComponentsMeaning(rows);
    var a :| a in Components(rows) && Stays(a, during, p);
    assert a.Has(p);
    InMeaning(p, Components(rows));
  }

  // ----- the exclusion constraint -----

  /** [t, t), which is empty, leaves t twice of what ends at t. */
  predicate Doubled(a: Interval, during: Interval) {
    && during.lower.value == during.upper.value && during.lower.closed && !during.upper.closed
    && a.lower.value.Below(during.lower.value) && a.upper.value == during.lower.value
  }

  ghost predicate Doubles(rows: Rows, during: Interval) {
    exists a :: a in Components(rows) && Doubled(a, during)
  }

  /** The pieces of one interval in two gaps conflict. */
  predicate PiecesClash(a: Interval, gaps: seq<Interval>)
    requires |gaps| == 2
  {
    && Piece(a, gaps[0]) && Piece(a, gaps[1])
    && Conflict(Intersect(a, gaps[0]).value, Intersect(a, gaps[1]).value)
  }

  lemma {:induction false} TwoPiecesConflict(a: Interval, during: Interval)
    requires Closed.Fits(a) && !a.Empty() && |GapsAround(during)| == 2
    ensures PiecesClash(a, GapsAround(during)) <==> Doubled(a, during)
  {
  }

  /** The remains of different components do not conflict, nor do those of one component in general. */
  lemma {:induction false} PiecesUnconflicted(left: seq<Interval>, right: seq<Interval>)
    requires ClosedRun(left) && |right| <= 2
    requires |right| == 2 ==> forall a :: a in left ==> !PiecesClash(a, right)
    ensures Unconflicted(Intersected(left, right))
    decreases |left| + |right|
  {
    if left != [] && right != [] {
      var more :=
        if left[0].upper.Lt(right[0].upper) then Intersected(left[1..], right) else Intersected(left, right[1..]);
      if left[0].upper.Lt(right[0].upper) {
        PiecesUnconflicted(left[1..], right);
      } else {
        PiecesUnconflicted(left, right[1..]);
      }
      if Piece(left[0], right[0]) {
        forall y | y in more
          ensures !Conflict(Intersect(left[0], right[0]).value, y)
        {
          PieceUnconflicted(left, right, y);
        }
        assert ([Intersect(left[0], right[0]).value] + more)[1..] == more;
      } else {
        assert Intersected(left, right) == [] + more == more;
      }
    }
  }

  lemma {:induction false} PieceUnconflicted(left: seq<Interval>, right: seq<Interval>, y: Interval)
    requires ClosedRun(left) && |right| <= 2
    requires |right| == 2 ==> forall a :: a in left ==> !PiecesClash(a, right)
    requires left != [] && right != [] && Piece(left[0], right[0])
    requires y in Intersected(left[1..], right) || y in Intersected(left, right[1..])
    ensures !Conflict(Intersect(left[0], right[0]).value, y)
  {
    var x := Intersect(left[0], right[0]).value;
    assert left[0] in left;
    if y in Intersected(left[1..], right) {
      IntersectedFrom(left[1..], right, y);
      var c, d :| c in left[1..] && d in right && FromPair(y, c, d);
      PairBefore(x, y, left[0], right[0], c, d);
    } else {
      IntersectedFrom(left, right[1..], y);
      var c, d :| c in left && d in right[1..] && FromPair(y, c, d);
      assert |right| == 2 && d == right[1];
      if c != left[0] {
        assert c in left[1..];
        PairBefore(x, y, left[0], right[0], c, d);
      }
    }
  }

  lemma {:induction false} DoubledConflict(rows: Rows, during: Interval, a: Interval)
    requires a in Components(rows) && Doubled(a, during)
    ensures !Unconflicted(RemoveIntervals(rows, during))
  {
    var right := GapsAround(during);
    ComponentsMeaning(rows);
    PiecesAre(rows, during);
    TwoPiecesConflict(a, during);
    var x, y := Intersect(a, right[0]).value, Intersect(a, right[1]).value;
    assert right[0] in right && right[1] in right && FromPair(x, a, right[0]) && FromPair(y, a, right[1]);
    if Unconflicted(RemoveIntervals(rows, during)) {
      UnconflictedPair(RemoveIntervals(rows, during), x, y);
    }
  }

  lemma {:induction false} PiecesConflict(rows: Rows, during: Interval)
    ensures Unconflicted(RemoveIntervals(rows, during)) <==> !Doubles(rows, during)
  {
    if Doubles(rows, during) {
      var a :| a in Components(rows) && Doubled(a, during);
      DoubledConflict(rows, during, a);
    } else {
      ComponentsMeaning(rows);
      PiecesAre(rows, during);
      GapsOf(during);
      forall a | |GapsAround(during)| == 2 && a in Components(rows)
        ensures !PiecesClash(a, GapsAround(during))
      {
        TwoPiecesConflict(a, during);
      }
      PiecesUnconflicted(Components(rows), GapsAround(during));
    }
  }

  /** [t, t) leaves an instant twice, or a membership left alone conflicts with the closure of a selected one. */
  ghost predicate RemoveCollides(rows: Rows, user: nat, group: nat, during: Interval) {
    Doubles(Selected(rows, user, group, during), during) || ClosureCollides(rows, user, group, during)
  }

  /** The constraint refuses to leave, for whatever interval on whatever table, exactly when there is a collision. */
  lemma {:induction false} RemoveAdmittedIff(rows: Rows, id: nat, user: nat, group: nat, during: Interval)
    ensures Leavable(rows, id, user, group, during)
            <==> !RemoveCollides(rows, user, group, during)
  {
    var selected := Selected(rows, user, group, during);
    var intervals := RemoveIntervals(selected, during);
    PiecesConflict(selected, during);
    NewRowsAdmitted(Without(rows, selected), id, user, group, intervals);
    CollisionMeaning(rows, user, group, during);
    forall n | n in rows && n.user == user && n.group == group && !IsSelected(n, user, group, during)
      ensures (exists x :: x in intervals && Conflict(n.activeDuring, x)) <==>
              exists p :: Collision(rows, user, group, during, n, p)
    {
      PieceConflict(rows, user, group, during, n);
    }
  }

  lemma {:induction false} PieceConflict(rows: Rows, user: nat, group: nat, during: Interval, n: Membership)
    requires n.user == user && n.group == group && !IsSelected(n, user, group, during)
    ensures (exists x ::
               x in RemoveIntervals(Selected(rows, user, group, during), during) && Conflict(n.activeDuring, x))
            <==> exists p :: Collision(rows, user, group, during, n, p)
  {
    var selected := Selected(rows, user, group, during);
    var intervals := RemoveIntervals(selected, during);
    if x :| x in intervals && Conflict(n.activeDuring, x) {
      ConflictMeaning(n.activeDuring, x);
      var p :| n.activeDuring.Has(p) && x.Has(p);
      InMeaning(p, intervals);
      RemoveIntervalsPoints(selected, during, p);
      assert Collision(rows, user, group, during, n, p);
    }
    if p :| Collision(rows, user, group, during, n, p) {
      LeftAlone(user, group, during, n, p);
      RemoveIntervalsPoints(selected, during, p);
      InMeaning(p, intervals);
      var x :| x in intervals && x.Has(p);
      ConflictMeaning(n.activeDuring, x);
    }
  }

  /** Where closures are disjoint, only [t, t) is ever refused, and exactly if a membership ends at t. */
  lemma {:induction false} RemoveRefusedIff(rows: Rows, id: nat, user: nat, group: nat, during: Interval)
    requires Inv(rows)
    ensures Leavable(rows, id, user, group, during)
            <==> forall m :: m in rows && m.user == user && m.group == group ==> !Doubled(m.activeDuring, during)
    ensures RemoveCollides(rows, user, group, during)
            <==> exists m :: m in rows && m.user == user && m.group == group && Doubled(m.activeDuring, during)
  {
    var selected := Selected(rows, user, group, during);
    RemoveAdmittedIff(rows, id, user, group, during);
    InvNeverCollides(rows, user, group, during);
    SelectedDisjoint(rows, user, group, during);
    ClosuresAreComponents(selected, user, group);
    if a :| a in Components(selected) && Doubled(a, during) {
      ClosuresElements(selected, a);
      var m :| m in selected && a == Closure(m.activeDuring);
      assert Doubled(m.activeDuring, during);
    }
    if m :| m in rows && m.user == user && m.group == group && Doubled(m.activeDuring, during) {
      assert m in selected;
      ClosuresElements(selected, Closure(m.activeDuring));
      assert Doubled(Closure(m.activeDuring), during);
    }
  }

  /** Removing [1, 1) from [0, 1] is refused, although there is nothing to remove. */
  lemma {:induction false} RemoveNothingCollides(id: nat, user: nat, group: nat)
    ensures
      var m := Membership(0, user, group, Span(Bound(At(0.0), true), Bound(At(1.0), true)));
      var during := Span(Bound(At(1.0), true), Bound(At(1.0), false));
      Inv([m]) && during.Empty() && !Leavable([m], id, user, group, during)
  {
    var m := Membership(0, user, group, Span(Bound(At(0.0), true), Bound(At(1.0), true)));
    var during: Interval := Span(Bound(At(1.0), true), Bound(At(1.0), false));
    AloneInv(m);
    RemoveRefusedIff([m], id, user, group, during);
    assert m in [m] && Doubled(m.activeDuring, during);
  }

  /** The constraint admits what is left only so that the table stays exclusive. */
  lemma {:induction false} RemoveKeepsExclusive(rows: Rows, id: nat, user: nat, group: nat, during: Interval)
    requires Exclusive(rows) && !RemoveCollides(rows, user, group, during)
    ensures Exclusive(AfterRemove(rows, id, user, group, during))
  {
    var selected := Selected(rows, user, group, during);
    RemoveAdmittedIff(rows, id, user, group, during);
    PiecesAre(selected, during);
    ReplacedExclusive(rows, id, user, group, during, RemoveIntervals(selected, during));
  }

  /** What is left behind an interval includes its begin if the interval excludes its end. */
  lemma {:induction false} PiecesBegin(rows: Rows, during: Interval)
    requires !during.upper.closed
    ensures forall x :: x in RemoveIntervals(rows, during) ==> BeginsClosed(x)
  {
    PiecesAre(rows, during);
    ComponentsMeaning(rows);
    forall x | x in RemoveIntervals(rows, during)
      ensures BeginsClosed(x)
    {
      var a, g :| a in Components(rows) && g in GapsAround(during) && FromPair(x, a, g);
      PieceBegins(a, during, g, x);
    }
  }

  lemma PieceBegins(a: Interval, during: Interval, g: Interval, x: Interval)
    requires !during.upper.closed && BeginsClosed(a) && g in GapsAround(during) && FromPair(x, a, g)
    ensures BeginsClosed(x)
  {
  }

  lemma {:induction false} RemoveKeepsBegins(rows: Rows, id: nat, user: nat, group: nat, during: Interval)
    requires !during.upper.closed
    ensures AllBeginsIncluded(rows) ==> AllBeginsIncluded(AfterRemove(rows, id, user, group, during))
    ensures BeginsIncluded(rows, user, group) ==>
              BeginsIncluded(AfterRemove(rows, id, user, group, during), user, group)
  {
    PiecesBegin(Selected(rows, user, group, during), during);
    ReplacedBegins(rows, id, user, group, during, RemoveIntervals(Selected(rows, user, group, during), during));
  }

  // ----- disjoint closures -----

  lemma PieceApart(m: Membership, n: Membership, g: Interval, x: Interval)
    requires Apart(m.activeDuring, n.activeDuring) && FromPair(x, Closure(m.activeDuring), g)
    ensures Apart(x, n.activeDuring)
  {}

  /** No membership of the user in the group is cut in two. */
  ghost predicate RemoveSafe(rows: Rows, user: nat, group: nat, during: Interval) {
    forall m :: m in rows && m.user == user && m.group == group ==> !Cuts(during, m.activeDuring)
  }

  lemma {:induction false} SafePieces(rows: Rows, user: nat, group: nat, during: Interval)
    requires Disjoint(rows) && AllSolid(rows) && Uniform(rows, user, group) && RemoveSafe(rows, user, group, during)
    ensures Separated(RemoveIntervals(rows, during))
  {
    var left, right := Components(rows), GapsAround(during);
    ComponentsMeaning(rows);
    ClosuresAreComponents(rows, user, group);
    GapsOf(during);
    PiecesAre(rows, during);
    if Separated(right) {
      IntersectedForm(left, right);
    } else {
      forall a | a in left
        ensures !(Piece(a, right[0]) && Piece(a, right[1]))
      {
        ClosuresElements(rows, a);
        var m :| m in rows && a == Closure(m.activeDuring);
        CutsMeaning(during, m.activeDuring);
      }
      PiecesSeparated(left, right);
    }
  }

  lemma {:induction false} PiecesApart(rows: Rows, user: nat, group: nat, during: Interval, n: Membership)
    requires Inv(rows) && n in rows && n.user == user && n.group == group && !IsSelected(n, user, group, during)
    ensures forall x :: x in RemoveIntervals(Selected(rows, user, group, during), during) ==> Apart(x, n.activeDuring)
  {
    var selected := Selected(rows, user, group, during);
    SelectedDisjoint(rows, user, group, during);
    RemovePieces(selected, user, group, during);
    forall x | x in RemoveIntervals(selected, during)
      ensures Apart(x, n.activeDuring)
    {
      var m, g :| m in selected && g in GapsAround(during) && FromPair(x, Closure(m.activeDuring), g);
      DisjointPair(rows, m, n);
      PieceApart(m, n, g, x);
    }
  }

  lemma {:induction false} RemoveKeepsInv(rows: Rows, id: nat, user: nat, group: nat, during: Interval)
    requires Inv(rows) && RemoveSafe(rows, user, group, during)
    ensures Inv(AfterRemove(rows, id, user, group, during))
    ensures !RemoveCollides(rows, user, group, during)
  {
    var selected := Selected(rows, user, group, during);
    var intervals := RemoveIntervals(selected, during);
    RemoveRefusedIff(rows, id, user, group, during);
    SelectedDisjoint(rows, user, group, during);
    RemovePieces(selected, user, group, during);
    SafePieces(selected, user, group, during);
    forall x, n | x in intervals && n in rows && n.user == user && n.group == group
      && !IsSelected(n, user, group, during)
      ensures Apart(x, n.activeDuring)
    {
      PiecesApart(rows, user, group, during, n);
    }
    ReplacedKeepsInv(rows, id, user, group, during, intervals);
  }

  /** The two pieces of a membership that is cut touch after taking closures. */
  lemma PiecesTouch(during: Interval, m: Interval)
    requires Cuts(during, m) && !m.Empty()
    ensures |GapsAround(during)| == 2
    ensures Piece(Closure(m), GapsAround(during)[0]) && Piece(Closure(m), GapsAround(during)[1])
    ensures var gaps := GapsAround(during);
      var x, y := Intersect(Closure(m), gaps[0]).value, Intersect(Closure(m), gaps[1]).value;
      x != y && !Apart(x, y)
  {
  }

  lemma {:induction false} TwoPieces(rows: Rows, user: nat, group: nat, during: Interval, m: Membership)
      returns (x: Interval, y: Interval)
    requires Disjoint(rows) && Uniform(rows, user, group) && m in rows && Cuts(during, m.activeDuring)
             && !m.activeDuring.Empty()
    ensures x in RemoveIntervals(rows, during) && y in RemoveIntervals(rows, during) && x != y && !Apart(x, y)
  {
    var gaps := GapsAround(during);
    RemovePieces(rows, user, group, during);
    PiecesTouch(during, m.activeDuring);
    assert gaps[0] in gaps && gaps[1] in gaps;
    x, y := Intersect(Closure(m.activeDuring), gaps[0]).value, Intersect(Closure(m.activeDuring), gaps[1]).value;
    assert FromPair(x, Closure(m.activeDuring), gaps[0]) && FromPair(y, Closure(m.activeDuring), gaps[1]);
  }

  lemma {:induction false} TouchingRows(kept: Rows, id: nat, user: nat, group: nat, intervals: seq<Interval>,
                                        x: Interval, y: Interval)
    requires x in intervals && y in intervals && x != y && !Apart(x, y)
    ensures !Inv(kept + NewRows(id, user, group, intervals))
  {
    var news := NewRows(id, user, group, intervals);
    NewRowsAre(id, user, group, intervals);
    var mx :| mx in news && mx.user == user && mx.group == group && mx.activeDuring == x;
    var my :| my in news && my.user == user && my.group == group && my.activeDuring == y;
    PairwiseConcat(kept, news, Compatible);
    if Disjoint(news) {
      DisjointPair(news, mx, my);
    }
  }

  lemma {:induction false} CutBreaks(rows: Rows, id: nat, user: nat, group: nat, during: Interval, m: Membership)
    requires Inv(rows) && m in rows && m.user == user && m.group == group && Cuts(during, m.activeDuring)
    ensures !Inv(AfterRemove(rows, id, user, group, during))
  {
    var selected := Selected(rows, user, group, during);
    assert m in selected;
    SelectedDisjoint(rows, user, group, during);
    var x, y := TwoPieces(selected, user, group, during, m);
    TouchingRows(Without(rows, selected), id, user, group, RemoveIntervals(selected, during), x, y);
  }

  /**
   Safety of `remove_member_of`, for whatever interval: closures of memberships stay disjoint exactly when
   no membership is cut in two, and then the exclusion constraint does not fire.
   */
  lemma {:induction false} RemoveKeepsInvIff(rows: Rows, id: nat, user: nat, group: nat, during: Interval)
    requires Inv(rows)
    ensures Inv(AfterRemove(rows, id, user, group, during)) <==> RemoveSafe(rows, user, group, during)
  {
    if RemoveSafe(rows, user, group, during) {
      RemoveKeepsInv(rows, id, user, group, during);
    } else {
      var m :| m in rows && m.user == user && m.group == group && Cuts(during, m.activeDuring);
      CutBreaks(rows, id, user, group, during, m);
    }
  }

  /** Removing a single instant is safe exactly when no membership has it strictly inside. */
  lemma {:induction false} RemoveMomentIff(rows: Rows, id: nat, user: nat, group: nat, t: Instant)
    requires Inv(rows)
    ensures Inv(AfterRemove(rows, id, user, group, Moment(t))) <==>
            forall m :: m in rows && m.user == user && m.group == group ==> !Inside(t, m.activeDuring)
  {
    RemoveKeepsInvIff(rows, id, user, group, Moment(t));
    assert forall m: Membership :: Cuts(Moment(t), m.activeDuring) <==> Inside(t, m.activeDuring);
  }

  /** Removing the instant 1 from [0, 2] breaks the invariant. */
  lemma {:induction false} RemoveMomentTouches(id: nat, user: nat, group: nat)
    ensures var m := Membership(0, user, group, Span(Bound(At(0.0), true), Bound(At(2.0), true)));
      Inv([m]) && !Inv(AfterRemove([m], id, user, group, Moment(1.0)))
  {
    var m := Membership(0, user, group, Span(Bound(At(0.0), true), Bound(At(2.0), true)));
    AloneInv(m);
    RemoveMomentIff([m], id, user, group, 1.0);
    assert m in [m] && Inside(1.0, m.activeDuring);
  }

  // ----- removing from an instant on -----

  /** A component of the closures begins before t and ends at t. */
  ghost predicate EndsAt(rows: Rows, t: Instant) {
    exists a :: a in Components(rows) && a.upper.value == At(t) && a.lower.value.Below(At(t))
  }

  lemma EndsAtStays(rows: Rows, t: Instant)
    ensures EndsAt(rows, t) <==> StaysAt(rows, StartingFrom(t), t)
    ensures forall p :: StaysAt(rows, StartingFrom(t), p) ==> p == t
  {
    if EndsAt(rows, t) {
      var a :| a in Components(rows) && a.upper.value == At(t) && a.lower.value.Below(At(t));
      assert Stays(a, StartingFrom(t), t);
    }
  }

  /** Then a membership does so. */
  lemma {:induction false} EndsByRow(rows: Rows, t: Instant)
    requires EndsAt(rows, t)
    ensures exists m :: m in rows && m.activeDuring.upper.value == At(t) && m.activeDuring.lower.value.Below(At(t))
  {
    var a :| a in Components(rows) && a.upper.value == At(t) && a.lower.value.Below(At(t));
    ComponentEnds(rows, a);
  }

  /** Where closures are disjoint, one does exactly if a membership does. */
  lemma {:induction false} EndsAtIff(rows: Rows, user: nat, group: nat, t: Instant)
    requires Disjoint(rows) && Uniform(rows, user, group)
    ensures EndsAt(rows, t) <==>
            exists m :: m in rows && m.activeDuring.upper.value == At(t) && m.activeDuring.lower.value.Below(At(t))
  {
    ClosuresAreComponents(rows, user, group);
    if EndsAt(rows, t) {
      EndsByRow(rows, t);
    }
    if m :| m in rows && m.activeDuring.upper.value == At(t) && m.activeDuring.lower.value.Below(At(t)) {
      ClosuresElements(rows, Closure(m.activeDuring));
      assert Closure(m.activeDuring) in Components(rows);
    }
  }

  /**
   The effect of `remove_member_of` from t on, on every table.  Nothing is left after t.  At t,
   membership is left or even gained exactly when a component of touching memberships ended at t.
   Before t, nothing is lost; what is gained are excluded ends of the memberships that were cut.
   */
  lemma {:induction false} RemoveFromEffect(rows: Rows, id: nat, user: nat, group: nat, t: Instant, p: Instant)
    ensures
      var after := AfterRemove(rows, id, user, group, StartingFrom(t));
      var selected := Selected(rows, user, group, StartingFrom(t));
      && (p > t ==> !MemberAt(after, user, group, p))
      && (p == t ==> (MemberAt(after, user, group, p) <==> EndsAt(selected, t)))
      && (p < t ==> (MemberAt(after, user, group, p) <==> MemberAt(rows, user, group, p) || InClosure(selected, p)))
  {
    var selected := Selected(rows, user, group, StartingFrom(t));
    RemoveEffect(rows, id, user, group, StartingFrom(t));
    EndsAtStays(selected, t);
    if StaysAt(selected, StartingFrom(t), p) {
      StaysCovered(selected, StartingFrom(t), p);
    }
  }

  /** A selected membership that excludes its begin, before t. */
  ghost predicate CutsLeftOpen(rows: Rows, user: nat, group: nat, t: Instant) {
    exists m :: m in Selected(rows, user, group, StartingFrom(t)) && !m.activeDuring.lower.closed
                && m.activeDuring.lower.value.At? && m.activeDuring.lower.value.t < t
  }

  /** The excluded begin of a membership is gained when the membership is cut. */
  lemma {:induction false} LeftOpenGains(rows: Rows, id: nat, user: nat, group: nat, t: Instant, m: Membership)
    requires Clear(rows) && m in Selected(rows, user, group, StartingFrom(t))
    requires !m.activeDuring.lower.closed && m.activeDuring.lower.value.At? && m.activeDuring.lower.value.t < t
    ensures var p := m.activeDuring.lower.value.t;
      MemberAt(AfterRemove(rows, id, user, group, StartingFrom(t)), user, group, p) && !MemberAt(rows, user, group, p)
  {
    var p := m.activeDuring.lower.value.t;
    RemoveFromEffect(rows, id, user, group, t, p);
    assert Closure(m.activeDuring).Has(p);
    if MemberAt(rows, user, group, p) {
      var n :| n in rows && n.user == user && n.group == group && n.activeDuring.Has(p);
      BeginIsFree(rows, m, n, p);
    }
  }

  /** No other membership has the excluded begin of one. */
  lemma {:induction false} BeginIsFree(rows: Rows, m: Membership, n: Membership, p: Instant)
    requires Clear(rows) && m in rows && n in rows && Same(m, n)
    requires m.activeDuring.lower == Bound(At(p), false)
    ensures !n.activeDuring.Has(p)
  {
    if n.activeDuring.Has(p) {
      assert !m.activeDuring.Empty();
      assert Begun(m.activeDuring).Has(p) && Begun(n.activeDuring).Has(p);
      ConflictMeaning(Begun(m.activeDuring), Begun(n.activeDuring));
      ConflictMeaning(Begun(n.activeDuring), Begun(m.activeDuring));
      PairwisePair(rows, ClearOf, m, n);
    }
  }

  /** Removing from t on leaves the past alone exactly when no membership it cuts is left-open. */
  lemma {:induction false} PastUnchangedIff(rows: Rows, id: nat, user: nat, group: nat, t: Instant)
    requires Clear(rows)
    ensures (forall p :: p < t ==>
              (MemberAt(AfterRemove(rows, id, user, group, StartingFrom(t)), user, group, p)
               <==> MemberAt(rows, user, group, p)))
            <==> !CutsLeftOpen(rows, user, group, t)
  {
    var selected := Selected(rows, user, group, StartingFrom(t));
    if CutsLeftOpen(rows, user, group, t) {
      var m :| m in selected && !m.activeDuring.lower.closed && m.activeDuring.lower.value.At?
        && m.activeDuring.lower.value.t < t;
      LeftOpenGains(rows, id, user, group, t, m);
    } else {
      forall p | p < t
        ensures MemberAt(AfterRemove(rows, id, user, group, StartingFrom(t)), user, group, p)
                <==> MemberAt(rows, user, group, p)
      {
        RemoveFromEffect(rows, id, user, group, t, p);
        NothingGained(rows, user, group, t, p);
      }
    }
  }

  lemma {:induction false} NothingGained(rows: Rows, user: nat, group: nat, t: Instant, p: Instant)
    requires !CutsLeftOpen(rows, user, group, t) && p < t
    ensures InClosure(Selected(rows, user, group, StartingFrom(t)), p) ==> MemberAt(rows, user, group, p)
  {
    var selected := Selected(rows, user, group, StartingFrom(t));
    if InClosure(selected, p) {
      var m :| m in selected && Closure(m.activeDuring).Has(p);
      assert m.activeDuring.Has(p);
    }
  }

  /** Removing twice at the same instant gives the user that instant back. */
  lemma {:induction false} SecondRemovalRegains(id: nat, user: nat, group: nat)
    ensures
      var rows := [Membership(0, user, group, Span(Bound(At(0.0), true), Bound(At(1.0), false)))];
      Inv(rows) && !MemberAt(rows, user, group, 1.0) &&
      MemberAt(AfterRemove(rows, id, user, group, StartingFrom(1.0)), user, group, 1.0)
  {
    var m := Membership(0, user, group, Span(Bound(At(0.0), true), Bound(At(1.0), false)));
    assert [m][1..] == [];
    var selected := Selected([m], user, group, StartingFrom(1.0));
    assert m in selected;
    SelectedDisjoint([m], user, group, StartingFrom(1.0));
    EndsAtIff(selected, user, group, 1.0);
    RemoveFromEffect([m], id, user, group, 1.0, 1.0);
  }

  /** Cutting (0, 2] at 1 makes the user a member at 0. */
  lemma {:induction false} PastRegains(id: nat, user: nat, group: nat)
    ensures var m := Membership(0, user, group, Span(Bound(At(0.0), false), Bound(At(2.0), true)));
      Inv([m]) && !MemberAt([m], user, group, 0.0)
        && MemberAt(AfterRemove([m], id, user, group, StartingFrom(1.0)), user, group, 0.0)
  {
    var m := Membership(0, user, group, Span(Bound(At(0.0), false), Bound(At(2.0), true)));
    AloneInv(m);
    InvIsClear([m]);
    assert m in Selected([m], user, group, StartingFrom(1.0));
    LeftOpenGains([m], id, user, group, 1.0, m);
  }

  // ----- what callers rely on -----

  /** A membership of the user in the group ends at t. */
  ghost predicate EndsIn(rows: Rows, user: nat, group: nat, t: Instant) {
    exists m :: m in rows && m.user == user && m.group == group
                && m.activeDuring.upper.value == At(t) && m.activeDuring.lower.value.Below(At(t))
  }

  /**
   The user is out of the group after t; before t nothing is lost, and nothing is gained unless a
   left-open membership is cut; at t the user is a member only if a membership ended there.
   */
  ghost predicate LeftFrom(before: Rows, after: Rows, user: nat, group: nat, t: Instant) {
    && (forall p :: p > t ==> !MemberAt(after, user, group, p))
    && (forall p :: p < t && MemberAt(before, user, group, p) ==> MemberAt(after, user, group, p))
    && (!CutsLeftOpen(before, user, group, t) ==>
          forall p :: p < t && MemberAt(after, user, group, p) ==> MemberAt(before, user, group, p))
    && (MemberAt(after, user, group, t) ==> EndsIn(before, user, group, t))
  }

  lemma {:induction false} RemovedFrom(rows: Rows, id: nat, user: nat, group: nat, t: Instant)
    ensures LeftFrom(rows, AfterRemove(rows, id, user, group, StartingFrom(t)), user, group, t)
    ensures forall u, g :: u != user || g != group ==>
              Untouched(rows, AfterRemove(rows, id, user, group, StartingFrom(t)), u, g)
  {
    var after := AfterRemove(rows, id, user, group, StartingFrom(t));
    var selected := Selected(rows, user, group, StartingFrom(t));
    forall p
      ensures p > t ==> !MemberAt(after, user, group, p)
      ensures p < t && MemberAt(rows, user, group, p) ==> MemberAt(after, user, group, p)
      ensures !CutsLeftOpen(rows, user, group, t) && p < t && MemberAt(after, user, group, p) ==>
                MemberAt(rows, user, group, p)
    {
      RemoveFromEffect(rows, id, user, group, t, p);
      if !CutsLeftOpen(rows, user, group, t) && p < t {
        NothingGained(rows, user, group, t, p);
      }
    }
    RemoveFromEffect(rows, id, user, group, t, t);
    if EndsAt(selected, t) {
      EndsByRow(selected, t);
    }
    ReplacedUntouched(rows, id, user, group, StartingFrom(t), RemoveIntervals(selected, StartingFrom(t)));
  }

  /** After removing from t on nothing left-open reaches t any more. */
  lemma {:induction false} RemovedCutsNothing(rows: Rows, id: nat, user: nat, group: nat, t: Instant)
    ensures !CutsLeftOpen(AfterRemove(rows, id, user, group, StartingFrom(t)), user, group, t)
  {
    var cut := Selected(rows, user, group, StartingFrom(t));
    PiecesBegin(cut, StartingFrom(t));
    NewRowsAre(id, user, group, RemoveIntervals(cut, StartingFrom(t)));
  }

  /** If no membership excludes its begin, removing from t on leaves the past alone. */
  lemma {:induction false} PastUnchanged(rows: Rows, id: nat, user: nat, group: nat, t: Instant, p: Instant)
    requires BeginsIncluded(rows, user, group) && p < t
    ensures MemberAt(AfterRemove(rows, id, user, group, StartingFrom(t)), user, group, p)
            <==> MemberAt(rows, user, group, p)
  {
    RemoveFromEffect(rows, id, user, group, t, p);
    NothingGained(rows, user, group, t, p);
  }

  /** On a clear table, also where memberships touch, leaving from t on is never refused, and keeps it clear. */
  lemma {:induction false} RemoveFromKeepsOrder(rows: Rows, id: nat, user: nat, group: nat, t: Instant)
    requires Clear(rows)
    ensures !RemoveCollides(rows, user, group, StartingFrom(t))
    ensures KeepsOrder(rows, AfterRemove(rows, id, user, group, StartingFrom(t)))
  {
    var selected := Selected(rows, user, group, StartingFrom(t));
    var intervals := RemoveIntervals(selected, StartingFrom(t));
    OneGap(selected, t);
    PiecesBegin(selected, StartingFrom(t));
    RemoveKeepsBegins(rows, id, user, group, StartingFrom(t));
    forall p | In(p, intervals)
      ensures InClosure(selected, p)
    {
      RemoveIntervalsPoints(selected, StartingFrom(t), p);
    }
    ReplacedFrom(rows, id, user, group, t, intervals);
    RemoveAdmittedIff(rows, id, user, group, StartingFrom(t));
    if Inv(rows) {
      RemoveKeepsInv(rows, id, user, group, StartingFrom(t));
    }
  }

  lemma {:induction false} OneGap(rows: Rows, t: Instant)
    ensures Separated(RemoveIntervals(rows, StartingFrom(t))) && NoneEmpty(RemoveIntervals(rows, StartingFrom(t)))
  {
    var left, right := Components(rows), GapsAround(StartingFrom(t));
    ComponentsMeaning(rows);
    PiecesAre(rows, StartingFrom(t));
    GapsOf(StartingFrom(t));
    assert |right| == 1 && Separated(right);
    IntersectedForm(left, right);
  }
}
