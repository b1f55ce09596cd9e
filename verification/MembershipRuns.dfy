/**
 Runs of `make_member_of` and `remove_member_of`, and the operations of `pycroft/lib/user/blocking.py`
 built from them.
 */
module MembershipRuns {
  import opened Wrappers
  import opened Intervals
  import opened IntervalSets
  import opened Memberships
  import opened MembershipInvariant
  import opened Joining
  import opened Leaving

  // ----- runs -----

  datatype Call =
    | Make(user: nat, group: nat, groupLevel: int, processorLevel: int, during: Interval)
    | Remove(user: nat, group: nat, groupLevel: int, processorLevel: int, during: Interval)
  {
    predicate Refused() {
      groupLevel > processorLevel
    }

    /** The exclusion constraint fires. */
    ghost predicate Collides(rows: Rows) {
      if Make? then MakeCollides(rows, user, group, during) else RemoveCollides(rows, user, group, during)
    }

    ghost function OutcomeOn(rows: Rows): Outcome {
      if Refused() then PermissionDenied else if Collides(rows) then ExclusionViolated else Done
    }

    /** The table after the call, and the next id. */
    ghost function Next(rows: Rows, id: nat): (Rows, nat) {
      if !OutcomeOn(rows).Done? then (rows, id)
      else if Make? then
        (AfterMake(rows, id, user, group, during),
         id + |MakeIntervals(Selected(rows, user, group, during), during)|)
      else
        (AfterRemove(rows, id, user, group, during),
         id + |RemoveIntervals(Selected(rows, user, group, during), during)|)
    }

    /** The call does nothing, or leaves no membership right next to `during` and cuts none in two. */
    ghost predicate Safe(rows: Rows) {
      || !OutcomeOn(rows).Done?
      || if Make? then MakeSafe(rows, user, group, during) else RemoveSafe(rows, user, group, during)
    }

    /** What is safe on every table: closed intervals and rays, and for removal all but single instants. */
    predicate AlwaysSafe() {
      if Make? then Closed.Fits(during) else during.lower.value.Below(during.upper.value)
    }

    /** Joining during what includes its begin, and leaving during what excludes its end. */
    predicate Usual() {
      if Make? then BeginsClosed(during) else !during.upper.closed
    }

    /** From an instant on. */
    ghost predicate Onward() {
      exists t :: during == StartingFrom(t)
    }
  }

  lemma MakeOutcome(rows: Rows, id: nat, c: Call)
    requires c.Make?
    ensures c.OutcomeOn(rows) ==
      if c.Refused() then PermissionDenied
      else if Joinable(rows, id, c.user, c.group, c.during) then Done else ExclusionViolated
  {
    MakeAdmittedIff(rows, id, c.user, c.group, c.during);
  }

  lemma MakeDone(rows: Rows, id: nat, c: Call)
    requires c.Make? && c.OutcomeOn(rows).Done?
    ensures c.Next(rows, id).0 == AfterMake(rows, id, c.user, c.group, c.during)
    ensures c.Next(rows, id).1 == id + |MakeIntervals(Selected(rows, c.user, c.group, c.during), c.during)|
  {
  }

  method ApplyMake(table: MembershipTable, c: Call) returns (r: Outcome)
    requires table.Valid() && c.Make?
    modifies table
    ensures table.Valid() && r == c.OutcomeOn(old(table.rows))
    ensures table.rows == c.Next(old(table.rows), old(table.nextId)).0
    ensures table.nextId == c.Next(old(table.rows), old(table.nextId)).1
  {
    ghost var rows, id := table.rows, table.nextId;
    MakeOutcome(rows, id, c);
    r := table.MakeMemberOf(c.user, c.group, c.groupLevel, c.processorLevel, c.during);
    if r.Done? {
      MakeDone(rows, id, c);
    }
  }

  lemma RemoveOutcome(rows: Rows, id: nat, c: Call)
    requires c.Remove?
    ensures c.OutcomeOn(rows) ==
      if c.Refused() then PermissionDenied
      else if Leavable(rows, id, c.user, c.group, c.during) then Done else ExclusionViolated
  {
    RemoveAdmittedIff(rows, id, c.user, c.group, c.during);
  }

  lemma RemoveDone(rows: Rows, id: nat, c: Call)
    requires c.Remove? && c.OutcomeOn(rows).Done?
    ensures c.Next(rows, id).0 == AfterRemove(rows, id, c.user, c.group, c.during)
    ensures c.Next(rows, id).1 == id + |RemoveIntervals(Selected(rows, c.user, c.group, c.during), c.during)|
  {
  }

  method ApplyRemove(table: MembershipTable, c: Call) returns (r: Outcome)
    requires table.Valid() && c.Remove?
    modifies table
    ensures table.Valid() && r == c.OutcomeOn(old(table.rows))
    ensures table.rows == c.Next(old(table.rows), old(table.nextId)).0
    ensures table.nextId == c.Next(old(table.rows), old(table.nextId)).1
  {
    ghost var rows, id := table.rows, table.nextId;
    RemoveOutcome(rows, id, c);
    r := table.RemoveMemberOf(c.user, c.group, c.groupLevel, c.processorLevel, c.during);
    if r.Done? {
      RemoveDone(rows, id, c);
    }
  }

  /** On every table, the outcome is as specified. */
  method Apply(table: MembershipTable, c: Call) returns (r: Outcome)
    requires table.Valid()
    modifies table
    ensures table.Valid() && r == c.OutcomeOn(old(table.rows))
    ensures table.rows == c.Next(old(table.rows), old(table.nextId)).0
    ensures table.nextId == c.Next(old(table.rows), old(table.nextId)).1
  {
    if c.Make? {
      r := ApplyMake(table, c);
    } else {
      r := ApplyRemove(table, c);
    }
  }

  ghost function Run(rows: Rows, id: nat, calls: seq<Call>): (Rows, nat)
    decreases |calls|
  {
    if calls == [] then (rows, id) else var next := calls[0].Next(rows, id); Run(next.0, next.1, calls[1..])
  }

  ghost function Outcomes(rows: Rows, id: nat, calls: seq<Call>): seq<Outcome>
    decreases |calls|
  {
    if calls == [] then []
    else var next := calls[0].Next(rows, id); [calls[0].OutcomeOn(rows)] + Outcomes(next.0, next.1, calls[1..])
  }

  lemma RunStep(rows: Rows, id: nat, calls: seq<Call>, outcomes: seq<Outcome>)
    requires calls != []
    ensures var next := calls[0].Next(rows, id);
      && Run(rows, id, calls) == Run(next.0, next.1, calls[1..])
      && outcomes + Outcomes(rows, id, calls)
         == outcomes + [calls[0].OutcomeOn(rows)] + Outcomes(next.0, next.1, calls[1..])
  {
    var next := calls[0].Next(rows, id);
    var o, more := [calls[0].OutcomeOn(rows)], Outcomes(next.0, next.1, calls[1..]);
    assert outcomes + (o + more) == outcomes + o + more;
  }

  /** Any run on any table: each call is refused by level or by the constraint exactly as specified. */
  method Replay(table: MembershipTable, calls: seq<Call>) returns (outcomes: seq<Outcome>)
    requires table.Valid()
    modifies table
    ensures table.Valid() && outcomes == Outcomes(old(table.rows), old(table.nextId), calls)
    ensures (table.rows, table.nextId) == Run(old(table.rows), old(table.nextId), calls)
  {
    ghost var end, expected := Run(table.rows, table.nextId, calls), Outcomes(table.rows, table.nextId, calls);
    outcomes := [];
    var rest := calls;
    assert outcomes + expected == expected;
    while rest != []
      invariant table.Valid()
      invariant Run(table.rows, table.nextId, rest) == end
      invariant outcomes + Outcomes(table.rows, table.nextId, rest) == expected
    {
      RunStep(table.rows, table.nextId, rest, outcomes);
      var r := Apply(table, rest[0]);
      outcomes, rest := outcomes + [r], rest[1..];
    }
    assert outcomes + [] == outcomes;
  }

  // ----- what runs keep -----

  /** No call, whatever its interval, makes memberships of one user in one group overlap. */
  lemma {:induction false} StepKeepsExclusive(rows: Rows, id: nat, c: Call)
    requires Exclusive(rows)
    ensures Exclusive(c.Next(rows, id).0)
  {
    if c.OutcomeOn(rows).Done? {
      if c.Make? {
        MakeKeepsExclusive(rows, id, c.user, c.group, c.during);
      } else {
        RemoveKeepsExclusive(rows, id, c.user, c.group, c.during);
      }
    }
  }

  lemma {:induction false} StepKeepsOrderly(rows: Rows, id: nat, c: Call)
    requires Orderly(rows) && c.Usual()
    ensures Orderly(c.Next(rows, id).0)
  {
    StepKeepsExclusive(rows, id, c);
    if c.Make? {
      MakeKeepsBegins(rows, id, c.user, c.group, c.during);
    } else {
      RemoveKeepsBegins(rows, id, c.user, c.group, c.during);
    }
  }

  lemma {:induction false} RunKeepsExclusive(rows: Rows, id: nat, calls: seq<Call>)
    requires Exclusive(rows)
    ensures Exclusive(Run(rows, id, calls).0)
    decreases |calls|
  {
    if calls == [] {
    } else {
      var next := calls[0].Next(rows, id);
      StepKeepsExclusive(rows, id, calls[0]);
      RunKeepsExclusive(next.0, next.1, calls[1..]);
    }
  }

  /** On an orderly table, what joins or leaves from an instant on is never stopped by the constraint. */
  lemma {:induction false} OnwardNeverCollides(rows: Rows, c: Call)
    requires Clear(rows) && c.Onward()
    ensures !c.Collides(rows)
  {
    var t :| c.during == StartingFrom(t);
    if c.Make? {
      MakeFromKeepsOrder(rows, 0, c.user, c.group, t);
    } else {
      RemoveFromKeepsOrder(rows, 0, c.user, c.group, t);
    }
  }

  /**
   Runs of usual calls keep memberships, which may touch, apart and their begins included; all along,
   calls from an instant on are never stopped by the constraint.
   */
  lemma {:induction false} UsualRun(rows: Rows, id: nat, calls: seq<Call>)
    requires Orderly(rows) && forall c :: c in calls ==> c.Usual()
    ensures Orderly(Run(rows, id, calls).0) && |Outcomes(rows, id, calls)| == |calls|
    ensures forall i :: 0 <= i < |calls| && calls[i].Onward() ==> !Outcomes(rows, id, calls)[i].ExclusionViolated?
    decreases |calls|
  {
    if calls == [] {
    } else {
      var c, next := calls[0], calls[0].Next(rows, id);
      assert c in calls;
      StepKeepsOrderly(rows, id, c);
      UsualRun(next.0, next.1, calls[1..]);
      if c.Onward() {
        OrderlyIsClear(rows);
        OnwardNeverCollides(rows, c);
      }
      var more := Outcomes(next.0, next.1, calls[1..]);
      forall i | 0 <= i < |calls| && calls[i].Onward()
        ensures !Outcomes(rows, id, calls)[i].ExclusionViolated?
      {
        assert i > 0 ==> calls[i] == calls[1..][i - 1] && ([c.OutcomeOn(rows)] + more)[i] == more[i - 1];
      }
    }
  }

  // ----- disjoint closures along runs -----

  lemma {:induction false} AlwaysSafeIsSafe(rows: Rows, c: Call)
    requires c.AlwaysSafe()
    ensures c.Safe(rows)
  {
    if c.Make? {
      ClosedIsSafe(rows, c.user, c.group, c.during);
    }
  }

  /** A call keeps the invariant exactly when it is safe. */
  lemma {:induction false} StepIff(rows: Rows, id: nat, c: Call)
    requires Inv(rows)
    ensures Inv(c.Next(rows, id).0) <==> c.Safe(rows)
  {
    if c.Make? {
      MakeKeepsInvIff(rows, id, c.user, c.group, c.during);
    } else {
      RemoveKeepsInvIff(rows, id, c.user, c.group, c.during);
    }
  }

  /** Safe joins and removals are never stopped by the constraint, but for removals of [t, t). */
  lemma {:induction false} SafeNeverCollides(rows: Rows, c: Call)
    requires Inv(rows) && (c.Make? || RemoveSafe(rows, c.user, c.group, c.during))
    ensures !c.Collides(rows)
  {
    if c.Make? {
      InvNeverCollides(rows, c.user, c.group, c.during);
    } else {
      RemoveKeepsInv(rows, 0, c.user, c.group, c.during);
    }
  }

  /** Every call is safe on the table it meets. */
  ghost predicate SafeRun(rows: Rows, id: nat, calls: seq<Call>)
    decreases |calls|
  {
    calls != [] ==> calls[0].Safe(rows) && var next := calls[0].Next(rows, id); SafeRun(next.0, next.1, calls[1..])
  }

  /** The invariant holds before and after every call. */
  ghost predicate InvAlong(rows: Rows, id: nat, calls: seq<Call>)
    decreases |calls|
  {
    Inv(rows) && (calls != [] ==> var next := calls[0].Next(rows, id); InvAlong(next.0, next.1, calls[1..]))
  }

  /** A run keeps the invariant all along exactly when each of its calls is safe. */
  lemma {:induction false} SafeRunIff(rows: Rows, id: nat, calls: seq<Call>)
    requires Inv(rows)
    ensures InvAlong(rows, id, calls) <==> SafeRun(rows, id, calls)
    decreases |calls|
  {
    if calls == [] {
    } else {
      var next := calls[0].Next(rows, id);
      StepIff(rows, id, calls[0]);
      if Inv(next.0) {
        SafeRunIff(next.0, next.1, calls[1..]);
      } else if calls[1..] == [] {
        assert !InvAlong(next.0, next.1, calls[1..]);
      }
    }
  }

  /** Calls that are safe on every table make a safe run, which the constraint never stops. */
  lemma {:induction false} AlwaysSafeRun(rows: Rows, id: nat, calls: seq<Call>)
    requires Inv(rows) && forall c :: c in calls ==> c.AlwaysSafe()
    ensures SafeRun(rows, id, calls) && Inv(Run(rows, id, calls).0)
    ensures forall o :: o in Outcomes(rows, id, calls) ==> !o.ExclusionViolated?
    decreases |calls|
  {
    if calls == [] {
    } else {
      assert calls[0] in calls;
      AlwaysSafeIsSafe(rows, calls[0]);
      SafeNeverCollides(rows, calls[0]);
      StepIff(rows, id, calls[0]);
      var next := calls[0].Next(rows, id);
      AlwaysSafeRun(next.0, next.1, calls[1..]);
    }
  }

  /** Runs of calls that are both never make a left-open membership, so that removals in them leave the past alone. */
  lemma {:induction false} PlainRunKeepsBegins(rows: Rows, id: nat, calls: seq<Call>)
    requires Inv(rows) && AllBeginsIncluded(rows) && forall c :: c in calls ==> c.AlwaysSafe() && c.Usual()
    ensures Inv(Run(rows, id, calls).0) && AllBeginsIncluded(Run(rows, id, calls).0)
  {
    InvIsClear(rows);
    ClearIsExclusive(rows);
    AlwaysSafeRun(rows, id, calls);
    UsualRun(rows, id, calls);
  }

  // ----- unblock -----

  /** `member_of` with an interval: a range query on the table. */
  predicate MemberDuring(rows: Rows, user: nat, group: nat, when: Interval) {
    exists m :: m in rows && m.user == user && m.group == group && Conflict(m.activeDuring, when)
  }

  lemma {:induction false} NotMemberLater(rows: Rows, user: nat, group: nat, when: Instant)
    ensures MemberDuring(rows, user, group, StartingFrom(when))
            <==> exists p :: p >= when && MemberAt(rows, user, group, p)
  {
    if MemberDuring(rows, user, group, StartingFrom(when)) {
      var m :| m in rows && m.user == user && m.group == group && Conflict(m.activeDuring, StartingFrom(when));
      OverlapsMeaning(m.activeDuring, StartingFrom(when));
      var p :| m.activeDuring.Has(p) && StartingFrom(when).Has(p);
      assert p >= when && MemberAt(rows, user, group, p);
    }
    if p :| p >= when && MemberAt(rows, user, group, p) {
      var m :| m in rows && m.user == user && m.group == group && m.activeDuring.Has(p);
      EmptyMeaning(m.activeDuring);
      OverlapsMeaning(m.activeDuring, StartingFrom(when));
    }
  }

  /** The removal guarded by `member_of`. */
  method LeaveGroup(table: MembershipTable, user: nat, group: nat, groupLevel: int, processorLevel: int, when: Instant)
      returns (r: Outcome)
    requires table.Valid() && Clear(table.rows)
    modifies table
    ensures table.Valid() && KeepsOrder(old(table.rows), table.rows) && !r.ExclusionViolated?
    ensures r.Done? ==> LeftFrom(old(table.rows), table.rows, user, group, when)
    ensures r.Done? && !CutsLeftOpen(old(table.rows), user, group, when) ==>
              !CutsLeftOpen(table.rows, user, group, when)
    ensures forall u, g :: u != user || g != group ==> Untouched(old(table.rows), table.rows, u, g)
    ensures r.PermissionDenied? ==> table.rows == old(table.rows)
    ensures Untouched(old(table.rows), table.rows, user, group)
            || exists p :: p >= when && MemberAt(old(table.rows), user, group, p)
  {
    r := Done;
    NotMemberLater(table.rows, user, group, when);
    if MemberDuring(table.rows, user, group, StartingFrom(when)) {
      ghost var rows, id := table.rows, table.nextId;
      RemovedFrom(rows, id, user, group, when);
      RemovedCutsNothing(rows, id, user, group, when);
      RemoveFromKeepsOrder(rows, id, user, group, when);
      RemoveAdmittedIff(rows, id, user, group, StartingFrom(when));
      r := table.RemoveMemberOf(user, group, groupLevel, processorLevel, StartingFrom(when));
    }
  }

  /** Leaving a group a second time at the same instant changes nothing of what has been reached. */
  lemma {:induction false} LeftTwice(before: Rows, rows: Rows, after: Rows, user: nat, group: nat, t: Instant)
    requires LeftFrom(before, rows, user, group, t) && LeftFrom(rows, after, user, group, t)
    requires !CutsLeftOpen(before, user, group, t) ==> !CutsLeftOpen(rows, user, group, t)
    requires Untouched(rows, after, user, group) || exists p :: p >= t && MemberAt(rows, user, group, p)
    ensures LeftFrom(before, after, user, group, t)
  {
    if Untouched(rows, after, user, group) {
      UntouchedIsSame(rows, after, user, group);
    } else {
      var p :| p >= t && MemberAt(rows, user, group, p);
      assert p == t;
    }
  }

  lemma {:induction false} UntouchedLeft(before: Rows, rows: Rows, after: Rows, user: nat, group: nat, t: Instant)
    requires Untouched(rows, after, user, group)
    ensures LeftFrom(before, rows, user, group, t) <==> LeftFrom(before, after, user, group, t)
    ensures CutsLeftOpen(rows, user, group, t) <==> CutsLeftOpen(after, user, group, t)
  {
    UntouchedIsSame(rows, after, user, group);
    assert forall m ::
      m in Selected(rows, user, group, StartingFrom(t)) <==> m in Selected(after, user, group, StartingFrom(t));
  }

  lemma {:induction false} LeftOfUntouched(before: Rows, rows: Rows, after: Rows, user: nat, group: nat, t: Instant)
    requires Untouched(before, rows, user, group)
    ensures LeftFrom(rows, after, user, group, t) <==> LeftFrom(before, after, user, group, t)
    ensures CutsLeftOpen(before, user, group, t) <==> CutsLeftOpen(rows, user, group, t)
  {
    UntouchedIsSame(before, rows, user, group);
    assert forall m ::
      m in Selected(before, user, group, StartingFrom(t)) <==> m in Selected(rows, user, group, StartingFrom(t));
    assert EndsIn(before, user, group, t) <==> EndsIn(rows, user, group, t);
  }

  /** What `unblock` owes to one group, and what the next removal of the same group may rely on. */
  ghost predicate GroupLeft(before: Rows, after: Rows, user: nat, group: nat, t: Instant) {
    && LeftFrom(before, after, user, group, t)
    && (!CutsLeftOpen(before, user, group, t) ==> !CutsLeftOpen(after, user, group, t))
  }

  lemma {:induction false} GroupStep(before: Rows, rows: Rows, after: Rows, user: nat, groups: seq<nat>, k: nat,
                                     t: Instant)
    requires k < |groups|
    requires forall j :: 0 <= j < k ==> GroupLeft(before, rows, user, groups[j], t)
    requires forall u, g :: u != user || g !in groups[..k] ==> Untouched(before, rows, u, g)
    requires GroupLeft(rows, after, user, groups[k], t)
    requires Untouched(rows, after, user, groups[k]) || exists p :: p >= t && MemberAt(rows, user, groups[k], p)
    requires forall u, g :: u != user || g != groups[k] ==> Untouched(rows, after, u, g)
    ensures forall j :: 0 <= j < k + 1 ==> GroupLeft(before, after, user, groups[j], t)
    ensures forall u, g :: u != user || g !in groups[..k + 1] ==> Untouched(before, after, u, g)
  {
    assert groups[..k + 1] == groups[..k] + [groups[k]];
    forall j | 0 <= j < k + 1
      ensures GroupLeft(before, after, user, groups[j], t)
    {
      if groups[j] != groups[k] {
        UntouchedLeft(before, rows, after, user, groups[j], t);
      } else if groups[k] in groups[..k] {
        var i :| 0 <= i < k && groups[i] == groups[k];
        LeftTwice(before, rows, after, user, groups[k], t);
      } else {
        LeftOfUntouched(before, rows, after, user, groups[k], t);
      }
    }
    forall u, g | u != user || g !in groups[..k + 1]
      ensures Untouched(before, after, u, g)
    {
      assert Untouched(before, rows, u, g) && Untouched(rows, after, u, g);
    }
  }

  /**
   `unblock`: afterwards the user has left all of the groups as of the given instant, with its past in
   them as it was; other memberships are untouched, and a refusal undoes everything.
   */
  method Unblock(table: MembershipTable, user: nat, groups: seq<nat>, level: nat -> int, processorLevel: int,
                 when: Instant)
      returns (r: Outcome)
    requires table.Valid() && Clear(table.rows)
    modifies table
    ensures table.Valid() && KeepsOrder(old(table.rows), table.rows) && !r.ExclusionViolated?
    ensures r.Done? ==> forall g :: g in groups ==> LeftFrom(old(table.rows), table.rows, user, g, when)
    ensures forall u, g :: u != user || g !in groups ==> Untouched(old(table.rows), table.rows, u, g)
    ensures r.PermissionDenied? ==> table.rows == old(table.rows)
  {
    var before, nextId := table.rows, table.nextId;
    r := Done;
    var k := 0;
    while k < |groups|
      invariant k <= |groups| && table.Valid() && KeepsOrder(before, table.rows) && r.Done?
      invariant forall j :: 0 <= j < k ==> GroupLeft(before, table.rows, user, groups[j], when)
      invariant forall u, g :: u != user || g !in groups[..k] ==> Untouched(before, table.rows, u, g)
    {
      ghost var rows := table.rows;
      r := LeaveGroup(table, user, groups[k], level(groups[k]), processorLevel, when);
      if r != Done {
        table.rows, table.nextId := before, nextId;
        return;
      }
      GroupStep(before, rows, table.rows, user, groups, k, when);
      k := k + 1;
    }
    assert groups[..k] == groups;
  }

  // ----- block -----

  /** The group that is joined, and the interval. */
  function BlockCall(user: nat, violation: bool, violationGroup: nat, blockedGroup: nat, level: nat -> int,
                     processorLevel: int, now: Instant, during: Option<Interval>): Call {
    var g := if violation then violationGroup else blockedGroup;
    Make(user, g, level(g), processorLevel, if during.Some? then during.value else StartingFrom(now))
  }

  /**
   `block`, on whatever table: the user joins the violation group or the blocked group during the
   interval, from now on if none is given.  With disjoint closures it is refused by level only; also if
   the interval ends, it leaves a table on which everything else here works.
   */
  method Block(table: MembershipTable, user: nat, violation: bool, violationGroup: nat, blockedGroup: nat,
               level: nat -> int, processorLevel: int, now: Instant, during: Option<Interval>) returns (r: Outcome)
    requires table.Valid()
    modifies table
    ensures table.Valid()
    ensures var c := BlockCall(user, violation, violationGroup, blockedGroup, level, processorLevel, now, during);
      && r == c.OutcomeOn(old(table.rows))
      && table.rows == c.Next(old(table.rows), old(table.nextId)).0
      && table.nextId == c.Next(old(table.rows), old(table.nextId)).1
      && (Inv(old(table.rows)) ==> !r.ExclusionViolated?)
      && (Inv(old(table.rows)) && BeginsClosed(c.during) ==> Clear(table.rows))
      && (Orderly(old(table.rows)) && BeginsClosed(c.during) ==> Orderly(table.rows) && Clear(table.rows))
    ensures during.None? && Clear(old(table.rows)) ==> !r.ExclusionViolated? && KeepsOrder(old(table.rows), table.rows)
    ensures violation ==> (r.PermissionDenied? <==> level(violationGroup) > processorLevel)
    ensures !violation ==> (r.PermissionDenied? <==> level(blockedGroup) > processorLevel)
    ensures r.Done? && violation ==> InDuring(table.rows, user, violationGroup, now, during)
    ensures r.Done? && !violation ==> InDuring(table.rows, user, blockedGroup, now, during)
    ensures forall u, g :: u != user || (violation && g != violationGroup) || (!violation && g != blockedGroup) ==>
              Untouched(old(table.rows), table.rows, u, g)
  {
    var c := BlockCall(user, violation, violationGroup, blockedGroup, level, processorLevel, now, during);
    BlockKeeps(table.rows, table.nextId, c);
    BlockedDuring(table.rows, table.nextId, user, c.group, now, during);
    if during.None? && Clear(table.rows) {
      MakeFromKeepsOrder(table.rows, table.nextId, user, c.group, now);
    }
    r := ApplyMake(table, c);
  }

  /** A member at every instant of the interval, or from now on. */
  ghost predicate InDuring(rows: Rows, user: nat, group: nat, now: Instant, during: Option<Interval>) {
    forall p :: (if during.Some? then during.value.Has(p) else p >= now) ==> MemberAt(rows, user, group, p)
  }

  lemma {:induction false} BlockedDuring(rows: Rows, id: nat, user: nat, group: nat, now: Instant,
                                         during: Option<Interval>)
    ensures var d := if during.Some? then during.value else StartingFrom(now);
      InDuring(AfterMake(rows, id, user, group, d), user, group, now, during) &&
      forall u, g :: u != user || g != group ==> Untouched(rows, AfterMake(rows, id, user, group, d), u, g)
  {
    var d: Interval := if during.Some? then during.value else StartingFrom(now);
    MakeEffect(rows, id, user, group, d);
    forall p | d.Has(p)
      ensures MemberAt(AfterMake(rows, id, user, group, d), user, group, p)
    {
      assert !LostAt(Selected(rows, user, group, d), d, p);
    }
  }

  lemma {:induction false} BlockKeeps(rows: Rows, id: nat, c: Call)
    requires c.Make?
    ensures Inv(rows) ==> !c.Collides(rows)
    ensures Inv(rows) && BeginsClosed(c.during) ==> Clear(c.Next(rows, id).0)
    ensures Orderly(rows) && BeginsClosed(c.during) ==> Orderly(c.Next(rows, id).0) && Clear(c.Next(rows, id).0)
  {
    if Inv(rows) {
      SafeNeverCollides(rows, c);
      InvIsClear(rows);
      if BeginsClosed(c.during) {
        MakeFromInvClear(rows, id, c.user, c.group, c.during);
      }
    }
    if Orderly(rows) && BeginsClosed(c.during) {
      StepKeepsOrderly(rows, id, c);
      OrderlyIsClear(c.Next(rows, id).0);
    }
  }

  /** The user is in none of the groups from t on, and no membership ends there. */
  ghost predicate FreeFrom(rows: Rows, user: nat, groups: seq<nat>, t: Instant) {
    forall g :: g in groups ==> Selected(rows, user, g, StartingFrom(t)) == []
  }

  lemma {:induction false} NotMemberFrom(rows: Rows, user: nat, group: nat, t: Instant, p: Instant)
    requires Selected(rows, user, group, StartingFrom(t)) == [] && p >= t
    ensures !MemberAt(rows, user, group, p)
  {
    if MemberAt(rows, user, group, p) {
      var m :| m in rows && m.user == user && m.group == group && m.activeDuring.Has(p);
      assert StartingFrom(t).Has(p) && Closure(m.activeDuring).Has(p);
      OverlapsMeaning(StartingFrom(t), Closure(m.activeDuring));
    }
  }

  /** Joining from t on, without a membership that reaches t, adds one membership: [t, oo). */
  lemma {:induction false} OnlyTheBlock(rows: Rows, id: nat, user: nat, group: nat, t: Instant)
    requires Selected(rows, user, group, StartingFrom(t)) == []
    ensures var blocked := AfterMake(rows, id, user, group, StartingFrom(t));
      && (forall p :: MemberAt(blocked, user, group, p) <==> MemberAt(rows, user, group, p) || p >= t)
      && !CutsLeftOpen(blocked, user, group, t) && !EndsIn(blocked, user, group, t)
      && (forall u, g :: u != user || g != group ==> Untouched(rows, blocked, u, g))
  {
    var blocked := AfterMake(rows, id, user, group, StartingFrom(t));
    MakeEffect(rows, id, user, group, StartingFrom(t));
    MakeIntervalsForm([], StartingFrom(t));
    assert MakeIntervals([], StartingFrom(t)) == [StartingFrom(t)] && [StartingFrom(t)][1..] == [];
    assert NewRows(id + 1, user, group, []) == [];
    var m := Membership(id, user, group, StartingFrom(t));
    assert NewRows(id, user, group, [StartingFrom(t)]) == [m];
    forall n | n in blocked && n.user == user && n.group == group
      ensures n == m || !IsSelected(n, user, group, StartingFrom(t))
    {
      assert n in rows ==> n !in Selected(rows, user, group, StartingFrom(t));
    }
  }

  /** Joining from t on and leaving from t on, without a membership that reaches t, restores every instant. */
  lemma {:induction false} BlockUndone(rows: Rows, id: nat, id': nat, user: nat, group: nat, t: Instant)
    requires Selected(rows, user, group, StartingFrom(t)) == []
    ensures
      var blocked := AfterMake(rows, id, user, group, StartingFrom(t));
      forall u, g :: SameIn(rows, AfterRemove(blocked, id', user, group, StartingFrom(t)), u, g)
  {
    var blocked := AfterMake(rows, id, user, group, StartingFrom(t));
    OnlyTheBlock(rows, id, user, group, t);
    RemovedFrom(blocked, id', user, group, t);
    Restored(rows, blocked, AfterRemove(blocked, id', user, group, StartingFrom(t)), user, group, [group], t);
  }

  /**
   Blocking a user from t on, who is in none of the groups from then on, and unblocking at t restores
   every instant of membership, whatever groups are left.
   */
  method BlockThenUnblock(table: MembershipTable, user: nat, violation: bool, violationGroup: nat, blockedGroup: nat,
                          inDefaultGroup: nat, level: nat -> int, processorLevel: int, t: Instant) returns (r: Outcome)
    requires table.Valid() && Clear(table.rows)
    requires FreeFrom(table.rows, user, [violationGroup, inDefaultGroup, blockedGroup], t)
    modifies table
    ensures table.Valid() && KeepsOrder(old(table.rows), table.rows) && !r.ExclusionViolated?
    ensures r.Done? ==> forall u, g :: SameIn(old(table.rows), table.rows, u, g)
  {
    var groups := [violationGroup, inDefaultGroup, blockedGroup];
    ghost var before, id := table.rows, table.nextId;
    ghost var group := if violation then violationGroup else blockedGroup;
    assert group in groups;
    OnlyTheBlock(before, id, user, group, t);
    r := Block(table, user, violation, violationGroup, blockedGroup, level, processorLevel, t, None);
    if r.Done? {
      ghost var blocked := table.rows;
      r := Unblock(table, user, groups, level, processorLevel, t);
      if r.Done? {
        Restored(before, blocked, table.rows, user, group, groups, t);
      }
    }
  }

  /**
   Blocking during an interval with an end, which may leave memberships that touch, and unblocking later:
   afterwards the user is in none of the groups, and everything else is as before.
   */
  method BlockUntilThenUnblock(table: MembershipTable, user: nat, violation: bool, violationGroup: nat,
                               blockedGroup: nat, inDefaultGroup: nat, level: nat -> int, processorLevel: int,
                               during: Interval, when: Instant) returns (r: Outcome)
    requires table.Valid() && (Inv(table.rows) || Orderly(table.rows)) && BeginsClosed(during)
    modifies table
    ensures table.Valid() && (r.Done? ==> Clear(table.rows)) && (Inv(old(table.rows)) ==> !r.ExclusionViolated?)
    ensures r.Done? ==> forall g, p ::
              g in [violationGroup, inDefaultGroup, blockedGroup] && p > when ==> !MemberAt(table.rows, user, g, p)
    ensures forall u, g :: u != user || g !in [violationGroup, inDefaultGroup, blockedGroup] ==>
              Untouched(old(table.rows), table.rows, u, g)
  {
    var groups := [violationGroup, inDefaultGroup, blockedGroup];
    ghost var before, id := table.rows, table.nextId;
    ghost var group := if violation then violationGroup else blockedGroup;
    assert group in groups;
    MakeEffect(before, id, user, group, during);
    r := Block(table, user, violation, violationGroup, blockedGroup, level, processorLevel, when, Some(during));
    ghost var blocked := table.rows;
    if r.Done? {
      r := Unblock(table, user, groups, level, processorLevel, when);
    }
    OthersThrough(before, blocked, table.rows, user, group, groups);
  }

  lemma OthersThrough(before: Rows, blocked: Rows, after: Rows, user: nat, group: nat, groups: seq<nat>)
    requires group in groups && forall u, g :: u != user || g != group ==> Untouched(before, blocked, u, g)
    requires forall u, g :: u != user || g !in groups ==> Untouched(blocked, after, u, g)
    ensures forall u, g :: u != user || g !in groups ==> Untouched(before, after, u, g)
  {
    forall u, g | u != user || g !in groups
      ensures Untouched(before, after, u, g)
    {
      assert Untouched(before, blocked, u, g) && Untouched(blocked, after, u, g);
    }
  }

  lemma {:induction false} Restored(before: Rows, blocked: Rows, after: Rows, user: nat, group: nat, groups: seq<nat>,
                                    t: Instant)
    requires FreeFrom(before, user, groups, t) && group in groups
    requires forall p :: MemberAt(blocked, user, group, p) <==> MemberAt(before, user, group, p) || p >= t
    requires !CutsLeftOpen(blocked, user, group, t) && !EndsIn(blocked, user, group, t)
    requires forall u, g :: u != user || g != group ==> Untouched(before, blocked, u, g)
    requires forall g :: g in groups ==> LeftFrom(blocked, after, user, g, t)
    requires forall u, g :: u != user || g !in groups ==> Untouched(blocked, after, u, g)
    ensures forall u, g :: SameIn(before, after, u, g)
  {
    forall u, g
      ensures SameIn(before, after, u, g)
    {
      if u != user || g !in groups {
        UntouchedIsSame(before, blocked, u, g);
        UntouchedIsSame(blocked, after, u, g);
      } else {
        if g != group {
          LeftOfUntouched(before, blocked, after, user, g, t);
          FreeCutsNothing(before, user, g, t);
        }
        forall p
          ensures MemberAt(before, u, g, p) <==> MemberAt(after, u, g, p)
        {
          if p >= t {
            NotMemberFrom(before, user, g, t, p);
          }
        }
      }
    }
  }

  lemma FreeCutsNothing(rows: Rows, user: nat, group: nat, t: Instant)
    requires Selected(rows, user, group, StartingFrom(t)) == []
    ensures !CutsLeftOpen(rows, user, group, t) && !EndsIn(rows, user, group, t)
  {
    forall m | m in rows && m.user == user && m.group == group
      ensures !IsSelected(m, user, group, StartingFrom(t))
    {
      assert m !in Selected(rows, user, group, StartingFrom(t));
    }
  }
}
