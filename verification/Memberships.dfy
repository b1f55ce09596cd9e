/**
 Group memberships: `make_member_of` and `remove_member_of` of `pycroft/lib/membership.py`, over the
 table `Membership` of `pycroft/model/user.py` with its exclusion constraint.
 */
module Memberships {
  import opened Intervals
  import opened IntervalSets
  import opened SetAlgebra

  datatype Membership = Membership(id: nat, user: nat, group: nat, activeDuring: Interval)

  type Rows = seq<Membership>

  datatype Outcome = Done | PermissionDenied | ExclusionViolated

  /** The range operator `&&` of the database, on which the exclusion constraint rests. */
  predicate Conflict(a: Interval, b: Interval) {
    !a.Empty() && !b.Empty() && a.Overlaps(b)
  }

  predicate IsSelected(m: Membership, user: nat, group: nat, when: Interval) {
    m.user == user && when.Overlaps(Closure(m.activeDuring)) && m.group == group
  }

  /** `active_memberships(when)`, narrowed to one group. */
  function Selected(rows: Rows, user: nat, group: nat, when: Interval): (r: Rows)
    ensures forall m :: m in r <==> m in rows && IsSelected(m, user, group, when)
  {
    if rows == [] then []
    else if IsSelected(rows[0], user, group, when) then [rows[0]] + Selected(rows[1..], user, group, when)
    else Selected(rows[1..], user, group, when)
  }

  /** The rows that are not among those gone. */
  function Without(rows: Rows, gone: Rows): (r: Rows)
    ensures forall m :: m in r <==> m in rows && m !in gone
  {
    if rows == [] then []
    else if rows[0] in gone then Without(rows[1..], gone)
    else [rows[0]] + Without(rows[1..], gone)
  }

  function RemoveId(rows: Rows, id: nat): Rows {
    if rows == [] then []
    else if rows[0].id == id then RemoveId(rows[1..], id)
    else [rows[0]] + RemoveId(rows[1..], id)
  }

  function Closures(rows: Rows): seq<Interval> {
    if rows == [] then [] else [Closure(rows[0].activeDuring)] + Closures(rows[1..])
  }

  function MakeIntervals(rows: Rows, during: Interval): seq<Interval> {
    Union(Mangled(Iterable(Closures(rows))), Single(during))
  }

  function RemoveIntervals(rows: Rows, during: Interval): seq<Interval> {
    RemoveNeverRaises(Closures(rows), during);
    Difference(Mangled(Iterable(Closures(rows))), Single(during)).value
  }

  lemma RemoveNeverRaises(closures: seq<Interval>, during: Interval)
    ensures Difference(Mangled(Iterable(closures)), Single(during)).Some?
  {
    ComplementRaisesIff([during]);
  }

  function NewRows(id: nat, user: nat, group: nat, intervals: seq<Interval>): (r: Rows)
    decreases |intervals|
  {
    if intervals == [] then []
    else [Membership(id, user, group, intervals[0])] + NewRows(id + 1, user, group, intervals[1..])
  }

  /** The exclusion constraint for one more row. */
  predicate Admits(rows: Rows, m: Membership) {
    forall n :: n in rows && n.user == m.user && n.group == m.group ==> !Conflict(n.activeDuring, m.activeDuring)
  }

  predicate AdmitsAll(rows: Rows, more: Rows)
    decreases |more|
  {
    more == [] || (Admits(rows, more[0]) && AdmitsAll(rows + [more[0]], more[1..]))
  }

  ghost predicate DistinctIds(rows: Rows) {
    rows != [] ==> (forall m :: m in rows[1..] ==> m.id != rows[0].id) && DistinctIds(rows[1..])
  }

  /** The table after replacing the selected memberships by the given intervals. */
  function Replaced(rows: Rows, id: nat, user: nat, group: nat, during: Interval, intervals: seq<Interval>): Rows {
    Without(rows, Selected(rows, user, group, during)) + NewRows(id, user, group, intervals)
  }

  function AfterMake(rows: Rows, id: nat, user: nat, group: nat, during: Interval): Rows {
    Replaced(rows, id, user, group, during, MakeIntervals(Selected(rows, user, group, during), during))
  }

  function AfterRemove(rows: Rows, id: nat, user: nat, group: nat, during: Interval): Rows {
    Replaced(rows, id, user, group, during, RemoveIntervals(Selected(rows, user, group, during), during))
  }

  /** The exclusion constraint admits what joining would insert. */
  predicate Joinable(rows: Rows, id: nat, user: nat, group: nat, during: Interval) {
    var selected := Selected(rows, user, group, during);
    AdmitsAll(Without(rows, selected), NewRows(id, user, group, MakeIntervals(selected, during)))
  }

  /** The exclusion constraint admits what leaving would insert. */
  predicate Leavable(rows: Rows, id: nat, user: nat, group: nat, during: Interval) {
    var selected := Selected(rows, user, group, during);
    AdmitsAll(Without(rows, selected), NewRows(id, user, group, RemoveIntervals(selected, during)))
  }

  class MembershipTable {
    var rows: Rows
    var nextId: nat

    ghost predicate Valid()
      reads this
    {
      DistinctIds(rows) && forall m :: m in rows ==> m.id < nextId
    }

    constructor ()
      ensures Valid() && rows == []
    {
      rows, nextId := [], 0;
    }

    /** The shared tail of both operations: delete, flush, add, with a rollback on failure. */
    method ReplaceSelected(user: nat, group: nat, during: Interval, memberships: Rows, intervals: seq<Interval>)
        returns (r: Outcome)
      requires Valid()
      requires memberships == Selected(rows, user, group, during)
      modifies this
      ensures Valid()
      ensures r == (if AdmitsAll(Without(old(rows), memberships), NewRows(old(nextId), user, group, intervals))
                    then Done else ExclusionViolated)
      ensures rows == if r.Done? then old(Replaced(rows, nextId, user, group, during, intervals)) else old(rows)
      ensures nextId == if r.Done? then old(nextId) + |intervals| else old(nextId)
    {
      var before, firstId := rows, nextId;
      DeleteAll(memberships);
      var ok := InsertAll(user, group, intervals);
      if ok {
        return Done;
      }
      rows, nextId := before, firstId;
      return ExclusionViolated;
    }

    method InsertAll(user: nat, group: nat, intervals: seq<Interval>) returns (ok: bool)
      requires Valid()
      modifies this
      ensures Valid() && nextId >= old(nextId)
      ensures ok == old(AdmitsAll(rows, NewRows(nextId, user, group, intervals)))
      ensures ok ==> rows == old(rows + NewRows(nextId, user, group, intervals)) && nextId == old(nextId) + |intervals|
    {
      var rest := intervals;
      while rest != []
        invariant Valid() && nextId >= old(nextId) && nextId + |rest| == old(nextId) + |intervals|
        invariant rows + NewRows(nextId, user, group, rest) == old(rows + NewRows(nextId, user, group, intervals))
        invariant AdmitsAll(rows, NewRows(nextId, user, group, rest))
                  == old(AdmitsAll(rows, NewRows(nextId, user, group, intervals)))
      {
        var m := Membership(nextId, user, group, rest[0]);
        InsertStep(rows, nextId, user, group, rest);
        if !Admits(rows, m) {
          return false;
        }
        AppendDistinct(rows, m);
        rows, nextId, rest := rows + [m], nextId + 1, rest[1..];
      }
      return true;
    }

    method DeleteAll(memberships: Rows)
      requires Valid()
      requires forall m :: m in memberships ==> m in rows
      modifies this`rows
      ensures rows == Without(old(rows), memberships) && Valid()
    {
      var k := 0;
      WithoutNothing(rows);
      while k < |memberships|
        invariant 0 <= k <= |memberships|
        invariant rows == Without(old(rows), memberships[..k])
      {
        RemoveStep(old(rows), memberships[..k], memberships[k]);
        assert memberships[..k + 1] == memberships[..k] + [memberships[k]];
        rows := RemoveId(rows, memberships[k].id);
        k := k + 1;
      }
      assert memberships[..k] == memberships;
      WithoutDistinct(old(rows), memberships);
    }

    method MakeMemberOf(user: nat, group: nat, groupLevel: int, processorLevel: int, during: Interval)
        returns (r: Outcome)
      requires Valid()
      modifies this
      ensures Valid()
      ensures r == if groupLevel > processorLevel then PermissionDenied
                   else if old(Joinable(rows, nextId, user, group, during)) then Done else ExclusionViolated
      ensures rows == if r.Done? then old(AfterMake(rows, nextId, user, group, during)) else old(rows)
      ensures nextId == old(nextId) +
        if r.Done? then |MakeIntervals(Selected(old(rows), user, group, during), during)| else 0
    {
      if groupLevel > processorLevel {
        return PermissionDenied;
      }
      var memberships := Selected(rows, user, group, during);
      var closures := Mangled(Iterable(Closures(memberships)));
      var chain := ChainOrdered(closures, [during]);
      var intervals := JoinOrdered(chain);
      r := ReplaceSelected(user, group, during, memberships, intervals);
    }

    method RemoveMemberOf(user: nat, group: nat, groupLevel: int, processorLevel: int, during: Interval)
        returns (r: Outcome)
      requires Valid()
      modifies this
      ensures Valid()
      ensures r == if groupLevel > processorLevel then PermissionDenied
                   else if old(Leavable(rows, nextId, user, group, during)) then Done else ExclusionViolated
      ensures rows == if r.Done? then old(AfterRemove(rows, nextId, user, group, during)) else old(rows)
      ensures nextId == old(nextId) +
        if r.Done? then |RemoveIntervals(Selected(old(rows), user, group, during), during)| else 0
    {
      if groupLevel > processorLevel {
        return PermissionDenied;
      }
      var memberships := Selected(rows, user, group, during);
      var closures := Mangled(Iterable(Closures(memberships)));
      var gaps := ComplementOrdered([during]);
      RemoveNeverRaises(Closures(memberships), during);
      var intervals := IntersectOrdered(closures, Mangled(Iterable(gaps.value)));
      r := ReplaceSelected(user, group, during, memberships, intervals);
    }
  }

  // ----- deleting and adding rows -----

  lemma InsertStep(rows: Rows, id: nat, user: nat, group: nat, intervals: seq<Interval>)
    requires intervals != []
    ensures
      var m, news, rest := Membership(id, user, group, intervals[0]), NewRows(id, user, group, intervals),
                           NewRows(id + 1, user, group, intervals[1..]);
      && rows + news == rows + [m] + rest
      && (AdmitsAll(rows, news) <==> Admits(rows, m) && AdmitsAll(rows + [m], rest))
  {
    var m := Membership(id, user, group, intervals[0]);
    var rest := NewRows(id + 1, user, group, intervals[1..]);
    assert NewRows(id, user, group, intervals) == [m] + rest && ([m] + rest)[1..] == rest;
    assert rows + ([m] + rest) == rows + [m] + rest;
  }

  lemma {:induction false} AppendDistinct(rows: Rows, m: Membership)
    requires DistinctIds(rows) && forall n :: n in rows ==> n.id != m.id
    ensures DistinctIds(rows + [m])
  {
    if rows == [] {
    } else {
      AppendDistinct(rows[1..], m);
      assert (rows + [m])[1..] == rows[1..] + [m];
    }
  }

  lemma {:induction false} WithoutNothing(rows: Rows)
    ensures Without(rows, []) == rows
  {
    if rows == [] {
    } else {
      WithoutNothing(rows[1..]);
    }
  }

  lemma {:induction false} RemoveAbsent(rows: Rows, id: nat)
    requires forall m :: m in rows ==> m.id != id
    ensures RemoveId(rows, id) == rows
  {
    if rows == [] {
    } else {
      assert rows[0] in rows;
      RemoveAbsent(rows[1..], id);
    }
  }

  lemma {:induction false} RemoveStep(rows: Rows, gone: Rows, m: Membership)
    requires DistinctIds(rows) && m in rows
    ensures RemoveId(Without(rows, gone), m.id) == Without(rows, gone + [m])
  {
    if m in rows[1..] {
      RemoveStep(rows[1..], gone, m);
      assert rows[0].id != m.id && rows[0] in gone + [m] <==> rows[0] in gone;
      assert ([rows[0]] + Without(rows[1..], gone))[1..] == Without(rows[1..], gone);
    } else {
      assert ([rows[0]] + Without(rows[1..], gone))[1..] == Without(rows[1..], gone);
      assert rows[0] == m && m in gone + [m];
      RemoveAbsent(Without(rows[1..], gone), m.id);
      SameWithout(rows[1..], gone, gone + [m]);
    }
  }

  lemma {:induction false} SameWithout(rows: Rows, gone: Rows, gone': Rows)
    requires forall m :: m in rows ==> (m in gone <==> m in gone')
    ensures Without(rows, gone) == Without(rows, gone')
  {
    if rows == [] {
    } else {
      assert rows[0] in rows;
      SameWithout(rows[1..], gone, gone');
    }
  }

  lemma {:induction false} WithoutDistinct(rows: Rows, gone: Rows)
    requires DistinctIds(rows)
    ensures DistinctIds(Without(rows, gone))
  {
    if rows == [] {
    } else {
      WithoutDistinct(rows[1..], gone);
      assert ([rows[0]] + Without(rows[1..], gone))[1..] == Without(rows[1..], gone);
    }
  }
}
