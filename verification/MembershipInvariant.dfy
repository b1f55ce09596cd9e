/**
 What holds of the membership table beyond its exclusion constraint: memberships of one user in one
 group keep clear of each other, in the strictest case even after taking closures.
 */
module MembershipInvariant {
  import opened Intervals
  import opened IntervalSets
  import opened SetAlgebra
  import opened Memberships

  /** Room between two intervals, even after taking closures. */
  predicate Apart(x: Interval, y: Interval) {
    WellBefore(x, y) || WellBefore(y, x)
  }

  /** For intervals with points, being apart is having disjoint closures. */
  lemma {:induction false} ApartMeaning(x: Interval, y: Interval)
    ensures Apart(x, y) <==> forall p :: !(Closure(x).Has(p) && Closure(y).Has(p))
    ensures Apart(x, y) ==> !Conflict(x, y)
  {
    OverlapsMeaning(Closure(x), Closure(y));
  }

  predicate Same(m: Membership, n: Membership) {
    m.user == n.user && m.group == n.group
  }

  /** Disjoint closures. */
  predicate Compatible(m: Membership, n: Membership) {
    Same(m, n) ==> Apart(m.activeDuring, n.activeDuring)
  }

  /** What the exclusion constraint asks for. */
  predicate Admissible(m: Membership, n: Membership) {
    Same(m, n) ==> !Conflict(m.activeDuring, n.activeDuring)
  }

  /** The interval with its begin. */
  function Begun(x: Interval): Interval {
    Span(Bound.Make(x.lower.value, true), x.upper)
  }

  /** No common instant, even if both include their begins. */
  predicate ClearOf(m: Membership, n: Membership) {
    Same(m, n) ==> !Conflict(Begun(m.activeDuring), Begun(n.activeDuring))
  }

  /** Every row is related to every later one. */
  ghost predicate Pairwise(rows: Rows, ok: (Membership, Membership) -> bool) {
    rows != [] ==> (forall n :: n in rows[1..] ==> ok(rows[0], n)) && Pairwise(rows[1..], ok)
  }

  ghost predicate AllSolid(rows: Rows) {
    forall m :: m in rows ==> !m.activeDuring.Empty()
  }

  /** Distinct memberships of one user in one group have disjoint closures. */
  ghost predicate Disjoint(rows: Rows) {
    Pairwise(rows, Compatible)
  }

  /** The invariant of a table in which memberships never touch. */
  ghost predicate Inv(rows: Rows) {
    Disjoint(rows) && AllSolid(rows)
  }

  /** What the constraint guarantees of nonempty memberships; they may touch. */
  ghost predicate Exclusive(rows: Rows) {
    Pairwise(rows, Admissible) && AllSolid(rows)
  }

  /** The same, also for the begins that are excluded. */
  ghost predicate Clear(rows: Rows) {
    Pairwise(rows, ClearOf) && AllSolid(rows)
  }

  /** No membership of the user in the group excludes its begin. */
  ghost predicate BeginsIncluded(rows: Rows, user: nat, group: nat) {
    forall m :: m in rows && m.user == user && m.group == group && m.activeDuring.lower.value.At? ==>
      m.activeDuring.lower.closed
  }

  ghost predicate AllBeginsIncluded(rows: Rows) {
    forall m :: m in rows && m.activeDuring.lower.value.At? ==> m.activeDuring.lower.closed
  }

  /** Memberships may touch, but include their begins. */
  ghost predicate Orderly(rows: Rows) {
    Exclusive(rows) && AllBeginsIncluded(rows)
  }

  /** What operations from an instant on keep, whichever of the invariants held before. */
  ghost predicate KeepsOrder(before: Rows, after: Rows) {
    && Clear(after)
    && (Inv(before) ==> Inv(after))
    && (AllBeginsIncluded(before) ==> AllBeginsIncluded(after))
  }

  /** The user is in the group at instant p. */
  ghost predicate MemberAt(rows: Rows, user: nat, group: nat, p: Instant) {
    exists m :: m in rows && m.user == user && m.group == group && m.activeDuring.Has(p)
  }

  /** p lies in the closure of one of the rows. */
  ghost predicate InClosure(rows: Rows, p: Instant) {
    exists m :: m in rows && Closure(m.activeDuring).Has(p)
  }

  // ----- pairs of rows -----

  lemma {:induction false} PairwiseConcat(s: Rows, t: Rows, ok: (Membership, Membership) -> bool)
    ensures Pairwise(s + t, ok) <==>
            Pairwise(s, ok) && Pairwise(t, ok) && forall a, b :: a in s && b in t ==> ok(a, b)
  {
    if s == [] {
      assert s + t == t;
    } else {
      PairwiseConcat(s[1..], t, ok);
      assert (s + t)[1..] == s[1..] + t && (s + t)[0] == s[0];
      assert forall a :: a in s <==> a == s[0] || a in s[1..];
      assert forall a :: a in s[1..] + t <==> a in s[1..] || a in t;
    }
  }

  lemma {:induction false} PairwisePair(rows: Rows, ok: (Membership, Membership) -> bool, m: Membership, n: Membership)
    requires Pairwise(rows, ok) && m in rows && n in rows && m != n
    ensures ok(m, n) || ok(n, m)
  {
    if m in rows[1..] && n in rows[1..] {
      PairwisePair(rows[1..], ok, m, n);
    }
  }

  lemma {:induction false} PairwiseWithout(rows: Rows, gone: Rows, ok: (Membership, Membership) -> bool)
    requires Pairwise(rows, ok)
    ensures Pairwise(Without(rows, gone), ok)
  {
    if rows == [] {
    } else {
      PairwiseWithout(rows[1..], gone, ok);
      assert ([rows[0]] + Without(rows[1..], gone))[1..] == Without(rows[1..], gone);
    }
  }

  lemma {:induction false} PairwiseImplies(rows: Rows, ok: (Membership, Membership) -> bool,
                                           ok': (Membership, Membership) -> bool)
    requires Pairwise(rows, ok)
    requires forall m, n :: m in rows && n in rows && ok(m, n) ==> ok'(m, n)
    ensures Pairwise(rows, ok')
  {
    if rows == [] {
    } else {
      PairwiseImplies(rows[1..], ok, ok');
    }
  }

  lemma {:induction false} DisjointPair(rows: Rows, m: Membership, n: Membership)
    requires Disjoint(rows) && m in rows && n in rows && m != n
    ensures Compatible(m, n)
  {
    PairwisePair(rows, Compatible, m, n);
  }

  /** At most one closure of a user in a group has an instant. */
  lemma {:induction false} OnlyOne(rows: Rows, m: Membership, n: Membership, p: Instant)
    requires Disjoint(rows) && m in rows && n in rows && Same(m, n)
    requires Closure(m.activeDuring).Has(p) && (Closure(n.activeDuring).Has(p) || n.activeDuring.Has(p))
    ensures m == n
  {
    if m != n {
      DisjointPair(rows, m, n);
      ApartMeaning(m.activeDuring, n.activeDuring);
      assert false;
    }
  }

  // ----- the invariants compared -----

  /** A conflict is a common instant. */
  lemma {:induction false} ConflictMeaning(x: Interval, y: Interval)
    ensures Conflict(x, y) <==> exists p :: x.Has(p) && y.Has(p)
  {
    if x.Empty() {
      EmptyMeaning(x);
    } else if y.Empty() {
      EmptyMeaning(y);
    } else {
      OverlapsMeaning(x, y);
    }
  }

  /** Disjoint closures are clear of each other. */
  lemma {:induction false} InvIsClear(rows: Rows)
    requires Inv(rows)
    ensures Clear(rows)
  {
    forall m, n | m in rows && n in rows && Compatible(m, n)
      ensures ClearOf(m, n)
    {
      if Same(m, n) {
        ApartBegun(m.activeDuring, n.activeDuring);
      }
    }
    PairwiseImplies(rows, Compatible, ClearOf);
  }

  lemma ApartBegun(x: Interval, y: Interval)
    requires Apart(x, y)
    ensures !Conflict(Begun(x), Begun(y))
  {
  }

  lemma {:induction false} ClearIsExclusive(rows: Rows)
    requires Clear(rows)
    ensures Exclusive(rows)
  {
    PairwiseImplies(rows, ClearOf, Admissible);
  }

  /** Where begins are included, the constraint is all it takes. */
  lemma {:induction false} OrderlyIsClear(rows: Rows)
    requires Orderly(rows)
    ensures Clear(rows)
  {
    forall m, n | m in rows && n in rows && Admissible(m, n)
      ensures ClearOf(m, n)
    {
      assert Begun(m.activeDuring) == m.activeDuring && Begun(n.activeDuring) == n.activeDuring;
    }
    PairwiseImplies(rows, Admissible, ClearOf);
  }

  /** [0, 1) next to [1, 2] is orderly and clear, although the closures meet. */
  lemma {:induction false} TouchingIsOrderly(user: nat, group: nat)
    ensures
      var m := Membership(0, user, group, Span(Bound(At(0.0), true), Bound(At(1.0), false)));
      var n := Membership(1, user, group, Span(Bound(At(1.0), true), Bound(At(2.0), true)));
      Orderly([m, n]) && Clear([m, n]) && !Inv([m, n])
  {
    var m := Membership(0, user, group, Span(Bound(At(0.0), true), Bound(At(1.0), false)));
    var n := Membership(1, user, group, Span(Bound(At(1.0), true), Bound(At(2.0), true)));
    assert [m, n][1..] == [n] && [n][1..] == [];
    assert n in [m, n][1..] && !Compatible(m, n);
    OrderlyIsClear([m, n]);
  }

  // ----- the exclusion constraint -----

  /** New rows are admitted if no two rows conflict, of the new ones or of an old and a new one. */
  lemma {:induction false} AdmitsAllIff(rows: Rows, more: Rows)
    ensures AdmitsAll(rows, more) <==>
            Pairwise(more, Admissible) && forall n, m :: n in rows && m in more ==> Admissible(n, m)
    decreases |more|
  {
    if more == [] {
    } else {
      AdmitsAllIff(rows + [more[0]], more[1..]);
      assert Admits(rows, more[0]) <==> forall n :: n in rows ==> Admissible(n, more[0]);
      assert forall m :: m in more <==> m == more[0] || m in more[1..];
      assert forall n :: n in rows + [more[0]] <==> n in rows || n == more[0];
    }
  }

  ghost predicate Unconflicted(s: seq<Interval>) {
    s != [] ==> (forall y :: y in s[1..] ==> !Conflict(s[0], y)) && Unconflicted(s[1..])
  }

  lemma {:induction false} UnconflictedPair(s: seq<Interval>, x: Interval, y: Interval)
    requires Unconflicted(s) && x in s && y in s && x != y
    ensures !Conflict(x, y)
  {
    if x in s[1..] && y in s[1..] {
      UnconflictedPair(s[1..], x, y);
    }
  }

  lemma {:induction false} SeparatedUnconflicted(s: seq<Interval>)
    requires Separated(s)
    ensures Unconflicted(s)
  {
    if s == [] {
    } else {
      SeparatedUnconflicted(s[1..]);
    }
  }

  lemma {:induction false} NewRowsAre(id: nat, user: nat, group: nat, intervals: seq<Interval>)
    ensures forall m :: m in NewRows(id, user, group, intervals) ==>
              m.user == user && m.group == group && m.activeDuring in intervals
    ensures forall x :: x in intervals ==>
              exists m :: m in NewRows(id, user, group, intervals) && m.user == user && m.group == group
                && m.activeDuring == x
    ensures Separated(intervals) ==> Disjoint(NewRows(id, user, group, intervals))
    ensures Unconflicted(intervals) <==> Pairwise(NewRows(id, user, group, intervals), Admissible)
    decreases |intervals|
  {
    if intervals == [] {
    } else {
      var m := Membership(id, user, group, intervals[0]);
      var rest := NewRows(id + 1, user, group, intervals[1..]);
      NewRowsAre(id + 1, user, group, intervals[1..]);
      assert ([m] + rest)[1..] == rest && m in [m] + rest;
      assert forall x :: x in intervals ==> x == intervals[0] || x in intervals[1..];
      forall x | x in intervals
        ensures exists k :: k in [m] + rest && k.user == user && k.group == group && k.activeDuring == x
      {
        if x == intervals[0] {
          assert m in [m] + rest && m.activeDuring == x;
        } else {
          var k :| k in rest && k.user == user && k.group == group && k.activeDuring == x;
          assert k in [m] + rest;
        }
      }
    }
  }

  /** New intervals of a user in a group are admitted if none conflicts with another one or with a row. */
  lemma {:induction false} NewRowsAdmitted(rows: Rows, id: nat, user: nat, group: nat, intervals: seq<Interval>)
    ensures AdmitsAll(rows, NewRows(id, user, group, intervals)) <==>
            && Unconflicted(intervals)
            && forall n, x :: n in rows && n.user == user && n.group == group && x in intervals ==>
                 !Conflict(n.activeDuring, x)
  {
    var news := NewRows(id, user, group, intervals);
    NewRowsAre(id, user, group, intervals);
    AdmitsAllIff(rows, news);
    forall n, x | (forall k :: k in news ==> Admissible(n, k)) && n.user == user && n.group == group && x in intervals
      ensures !Conflict(n.activeDuring, x)
    {
      var k :| k in news && k.user == user && k.group == group && k.activeDuring == x;
      assert Admissible(n, k);
    }
  }

  /** Whatever the constraint admits keeps the table exclusive. */
  lemma {:induction false} ReplacedExclusive(rows: Rows, id: nat, user: nat, group: nat, during: Interval,
                                             intervals: seq<Interval>)
    requires Exclusive(rows) && NoneEmpty(intervals)
    requires AdmitsAll(Without(rows, Selected(rows, user, group, during)), NewRows(id, user, group, intervals))
    ensures Exclusive(Replaced(rows, id, user, group, during, intervals))
  {
    var kept := Without(rows, Selected(rows, user, group, during));
    var news := NewRows(id, user, group, intervals);
    PairwiseWithout(rows, Selected(rows, user, group, during), Admissible);
    NewRowsAre(id, user, group, intervals);
    AdmitsAllIff(kept, news);
    PairwiseConcat(kept, news, Admissible);
  }

  lemma {:induction false} ReplacedBegins(rows: Rows, id: nat, user: nat, group: nat, during: Interval,
                                          intervals: seq<Interval>)
    requires forall x :: x in intervals && x.lower.value.At? ==> x.lower.closed
    ensures AllBeginsIncluded(rows) ==> AllBeginsIncluded(Replaced(rows, id, user, group, during, intervals))
    ensures BeginsIncluded(rows, user, group) ==>
              BeginsIncluded(Replaced(rows, id, user, group, during, intervals), user, group)
  {
    NewRowsAre(id, user, group, intervals);
  }

  /** Replacing selected rows by separated intervals that keep clear of the others. */
  lemma {:induction false} ReplacedClear(rows: Rows, id: nat, user: nat, group: nat, during: Interval,
                                         intervals: seq<Interval>)
    requires Clear(rows) && Separated(intervals) && NoneEmpty(intervals)
    requires forall n, x ::
               n in rows && n.user == user && n.group == group && !IsSelected(n, user, group, during) && x in intervals
               ==> !Conflict(Begun(n.activeDuring), Begun(x))
    ensures Clear(Replaced(rows, id, user, group, during, intervals))
    ensures AdmitsAll(Without(rows, Selected(rows, user, group, during)), NewRows(id, user, group, intervals))
  {
    var kept := Without(rows, Selected(rows, user, group, during));
    var news := NewRows(id, user, group, intervals);
    PairwiseWithout(rows, Selected(rows, user, group, during), ClearOf);
    NewRowsAre(id, user, group, intervals);
    NewRowsClear(id, user, group, intervals);
    PairwiseConcat(kept, news, ClearOf);
    ClearIsExclusive(kept + news);
    PairwiseConcat(kept, news, Admissible);
    AdmitsAllIff(kept, news);
  }

  lemma {:induction false} NewRowsClear(id: nat, user: nat, group: nat, intervals: seq<Interval>)
    requires Separated(intervals)
    ensures Pairwise(NewRows(id, user, group, intervals), ClearOf)
  {
    NewRowsAre(id, user, group, intervals);
    forall m, n | Compatible(m, n)
      ensures ClearOf(m, n)
    {
      if Same(m, n) {
        ApartBegun(m.activeDuring, n.activeDuring);
      }
    }
    PairwiseImplies(NewRows(id, user, group, intervals), Compatible, ClearOf);
  }

  /** Replacing the selected rows by separated intervals that keep clear of the others is admitted. */
  lemma {:induction false} ReplacedKeepsInv(rows: Rows, id: nat, user: nat, group: nat, during: Interval,
                                            intervals: seq<Interval>)
    requires Inv(rows) && Separated(intervals) && NoneEmpty(intervals)
    requires forall n :: n in rows && n.user == user && n.group == group && !IsSelected(n, user, group, during) ==>
               forall x :: x in intervals ==> Apart(x, n.activeDuring)
    ensures Inv(Replaced(rows, id, user, group, during, intervals))
  {
    var kept := Without(rows, Selected(rows, user, group, during));
    PairwiseWithout(rows, Selected(rows, user, group, during), Compatible);
    NewRowsAre(id, user, group, intervals);
    PairwiseConcat(kept, NewRows(id, user, group, intervals), Compatible);
  }

  lemma {:induction false} ReplacedMembers(rows: Rows, id: nat, user: nat, group: nat, during: Interval,
                                           intervals: seq<Interval>, u: nat, g: nat, p: Instant)
    ensures MemberAt(Replaced(rows, id, user, group, during, intervals), u, g, p) <==>
            || MemberAt(Without(rows, Selected(rows, user, group, during)), u, g, p)
            || (u == user && g == group && In(p, intervals))
  {
    var kept := Without(rows, Selected(rows, user, group, during));
    var news := NewRows(id, user, group, intervals);
    NewRowsAre(id, user, group, intervals);
    InMeaning(p, intervals);
    assert forall m :: m in kept + news <==> m in kept || m in news;
  }

  // ----- make_member_of -----

  lemma {:induction false} ClosuresElements(rows: Rows, x: Interval)
    ensures x in Closures(rows) <==> exists m :: m in rows && x == Closure(m.activeDuring)
  {
    if rows == [] {
    } else {
      ClosuresElements(rows[1..], x);
      assert rows[0] in rows;
      if x in Closures(rows[1..]) {
        var m :| m in rows[1..] && x == Closure(m.activeDuring);
        assert m in rows;
      }
      if m :| m in rows && x == Closure(m.activeDuring) {
        assert m == rows[0] || m in rows[1..];
      }
    }
  }

  lemma {:induction false} ClosuresClosed(rows: Rows)
    ensures AllFit(Closed, Closures(rows)) && NoneEmpty(Closures(rows))
  {
    if rows == [] {
    } else {
      ClosuresClosed(rows[1..]);
    }
  }

  lemma {:induction false} ClosuresMeaning(rows: Rows)
    ensures forall p :: In(p, Closures(rows)) <==> InClosure(rows, p)
  {
    forall p
      ensures In(p, Closures(rows)) <==> InClosure(rows, p)
    {
      InMeaning(p, Closures(rows));
      if In(p, Closures(rows)) {
        var x :| x in Closures(rows) && x.Has(p);
        ClosuresElements(rows, x);
      }
      if m :| m in rows && Closure(m.activeDuring).Has(p) {
        ClosuresElements(rows, Closure(m.activeDuring));
      }
    }
  }

  // ----- arrangements -----

  ghost predicate PairwiseApart(s: seq<Interval>) {
    s != [] ==> (forall y :: y in s[1..] ==> Apart(s[0], y)) && PairwiseApart(s[1..])
  }

  lemma {:induction false} InsertedSeparated(x: Interval, s: seq<Interval>)
    requires Separated(s) && forall y :: y in s ==> Apart(x, y)
    ensures Separated(Inserted(x, s))
  {
    if s == [] || !s[0].Precedes(x) {
      assert ([x] + s)[1..] == s;
      assert s != [] ==> Apart(x, s[0]) && WellBefore(x, s[0]);
      assert forall y :: y in s ==> y == s[0] || y in s[1..];
    } else {
      assert Apart(x, s[0]) && WellBefore(s[0], x);
      InsertedSeparated(x, s[1..]);
      InsertedSorted(x, s[1..]);
      assert ([s[0]] + Inserted(x, s[1..]))[1..] == Inserted(x, s[1..]);
    }
  }

  lemma {:induction false} SortedSeparated(s: seq<Interval>)
    requires PairwiseApart(s)
    ensures Separated(Sorted(s))
  {
    if s == [] {
    } else {
      SortedSeparated(s[1..]);
      SortedIsArrangement(s[1..]);
      InsertedSeparated(s[0], Sorted(s[1..]));
    }
  }

  lemma {:induction false} ClosuresApart(rows: Rows, user: nat, group: nat)
    requires Disjoint(rows) && forall m :: m in rows ==> m.user == user && m.group == group
    ensures PairwiseApart(Closures(rows))
  {
    if rows == [] {
    } else {
      ClosuresApart(rows[1..], user, group);
      assert rows[0] in rows;
      assert Closures(rows)[1..] == Closures(rows[1..]);
      forall y | y in Closures(rows[1..])
        ensures Apart(Closures(rows)[0], y)
      {
        ClosuresElements(rows[1..], y);
        var n :| n in rows[1..] && y == Closure(n.activeDuring);
        assert Compatible(rows[0], n);
      }
    }
  }

  lemma {:induction false} PairwiseSelected(rows: Rows, user: nat, group: nat, when: Interval,
                                            ok: (Membership, Membership) -> bool)
    requires Pairwise(rows, ok)
    ensures Pairwise(Selected(rows, user, group, when), ok)
  {
    if rows == [] {
    } else {
      PairwiseSelected(rows[1..], user, group, when, ok);
      var rest := Selected(rows[1..], user, group, when);
      assert ([rows[0]] + rest)[1..] == rest;
    }
  }

  lemma SelectedDisjoint(rows: Rows, user: nat, group: nat, when: Interval)
    requires Disjoint(rows)
    ensures Disjoint(Selected(rows, user, group, when))
  {
    PairwiseSelected(rows, user, group, when, Compatible);
  }

  /** The closures of disjoint memberships need no joining: the set is just their arrangement. */
  lemma {:induction false} ArrangedClosures(rows: Rows, user: nat, group: nat)
    requires Disjoint(rows) && forall m :: m in rows ==> m.user == user && m.group == group
    ensures Separated(Mangled(Iterable(Closures(rows))))
    ensures forall x :: x in Mangled(Iterable(Closures(rows))) <==> x in Closures(rows)
  {
    ClosuresApart(rows, user, group);
    ClosuresClosed(rows);
    ApartArranged(Closures(rows));
  }

  lemma {:induction false} ApartArranged(s: seq<Interval>)
    requires PairwiseApart(s) && NoneEmpty(s)
    ensures Separated(Mangled(Iterable(s)))
    ensures forall x :: x in Mangled(Iterable(s)) <==> x in s
  {
    SortedSeparated(s);
    SortedIsArrangement(s);
    JoinedIdentity(Sorted(s));
  }

  // ----- memberships of one user in one group -----

  /** The same rows for the user in the group. */
  ghost predicate Untouched(rows: Rows, rows': Rows, user: nat, group: nat) {
    forall m: Membership :: m.user == user && m.group == group ==> (m in rows <==> m in rows')
  }

  /** The same instants for the user in the group. */
  ghost predicate SameIn(rows: Rows, rows': Rows, user: nat, group: nat) {
    forall p :: MemberAt(rows, user, group, p) <==> MemberAt(rows', user, group, p)
  }

  lemma UntouchedIsSame(rows: Rows, rows': Rows, user: nat, group: nat)
    requires Untouched(rows, rows', user, group)
    ensures SameIn(rows, rows', user, group)
  {
    forall p
      ensures MemberAt(rows, user, group, p) <==> MemberAt(rows', user, group, p)
    {
    }
  }

  /** Replacing selected memberships touches no other user and no other group. */
  lemma {:induction false} ReplacedUntouched(rows: Rows, id: nat, user: nat, group: nat, during: Interval,
                                             intervals: seq<Interval>)
    ensures forall u, g :: u != user || g != group ==>
              Untouched(rows, Replaced(rows, id, user, group, during, intervals), u, g)
  {
    NewRowsAre(id, user, group, intervals);
  }
}
