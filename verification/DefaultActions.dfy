/**
 What happens to the members selected for default: `take_actions_for_payment_in_default_users` of
 `pycroft/lib/finance/payment_in_default.py`, with the membership part of `move_out` of
 `pycroft/lib/user/lifecycle.py`.
 */
module DefaultActions {
  import opened Wrappers
  import opened Intervals
  import opened Memberships
  import opened MembershipInvariant
  import opened Joining
  import opened Leaving
  import opened MembershipRuns
  import opened Fees
  import opened Defaults

  /** `member_of` without an interval, as a range query at the present instant. */
  predicate MemberNow(rows: Rows, user: nat, group: nat, now: Instant) {
    MemberDuring(rows, user, group, Moment(now))
  }

  lemma {:induction false} MemberNowMeaning(rows: Rows, user: nat, group: nat, now: Instant)
    requires AllSolid(rows)
    ensures MemberNow(rows, user, group, now) <==> MemberAt(rows, user, group, now)
  {
    if MemberNow(rows, user, group, now) {
      var m :| m in rows && m.user == user && m.group == group && Conflict(m.activeDuring, Moment(now));
      OverlapsMeaning(m.activeDuring, Moment(now));
      assert m.activeDuring.Has(now);
    }
    if MemberAt(rows, user, group, now) {
      var m :| m in rows && m.user == user && m.group == group && m.activeDuring.Has(now);
      OverlapsMeaning(m.activeDuring, Moment(now));
      assert Conflict(m.activeDuring, Moment(now));
    }
  }

  // ----- blocking -----

  /** Whoever is in the group now stays as before; anybody else is in it from now on. */
  ghost predicate InUnlessIn(before: Rows, after: Rows, user: nat, group: nat, now: Instant) {
    if MemberAt(before, user, group, now) then Untouched(before, after, user, group)
    else InFrom(before, after, user, group, now)
  }

  /** A member in default joins the group from now on, unless already in it. */
  method BlockOne(table: MembershipTable, user: nat, group: nat, groupLevel: int, processorLevel: int, now: Instant)
      returns (r: Outcome)
    requires table.Valid() && Clear(table.rows)
    modifies table
    ensures table.Valid() && KeepsOrder(old(table.rows), table.rows) && !r.ExclusionViolated?
    ensures r.Done? ==> InUnlessIn(old(table.rows), table.rows, user, group, now)
    ensures forall u, g :: u != user || g != group ==> Untouched(old(table.rows), table.rows, u, g)
  {
    r := Done;
    MemberNowMeaning(table.rows, user, group, now);
    if !MemberNow(table.rows, user, group, now) {
      ghost var rows, id := table.rows, table.nextId;
      MakeFromKeepsOrder(rows, id, user, group, now);
      MakeAdmittedIff(rows, id, user, group, StartingFrom(now));
      MadeFrom(rows, id, user, group, now);
      r := table.MakeMemberOf(user, group, groupLevel, processorLevel, StartingFrom(now));
    }
  }

  // ----- leaving -----

  datatype Departure = Scheduled(due: Instant) | Left | Denied

  /** Whoever is in the group now has left it as of `when`; anybody else is as before. */
  ghost predicate LeftIfIn(before: Rows, after: Rows, user: nat, group: nat, now: Instant, when: Instant) {
    if MemberAt(before, user, group, now) then LeftFrom(before, after, user, group, when)
    else Untouched(before, after, user, group)
  }

  /** One round of the loop of `move_out`: whoever is in the group now leaves it from `when` on. */
  method LeaveIfIn(table: MembershipTable, user: nat, group: nat, groupLevel: int, processorLevel: int, now: Instant,
                   when: Instant)
      returns (r: Outcome)
    requires table.Valid() && Clear(table.rows)
    modifies table
    ensures table.Valid() && KeepsOrder(old(table.rows), table.rows) && !r.ExclusionViolated?
    ensures r.Done? ==> LeftIfIn(old(table.rows), table.rows, user, group, now, when)
    ensures forall u, g :: u != user || g != group ==> Untouched(old(table.rows), table.rows, u, g)
  {
    r := Done;
    MemberNowMeaning(table.rows, user, group, now);
    if MemberNow(table.rows, user, group, now) {
      ghost var rows, id := table.rows, table.nextId;
      RemovedFrom(rows, id, user, group, when);
      RemoveFromKeepsOrder(rows, id, user, group, when);
      RemoveAdmittedIff(rows, id, user, group, StartingFrom(when));
      r := table.RemoveMemberOf(user, group, groupLevel, processorLevel, StartingFrom(when));
    }
  }

  /** What has been reached in a group stays while others are dealt with. */
  lemma {:induction false} LeftIfInThen(before: Rows, rows: Rows, after: Rows, user: nat, group: nat, now: Instant,
                                        when: Instant)
    requires LeftIfIn(before, rows, user, group, now, when) && Untouched(rows, after, user, group)
    ensures LeftIfIn(before, after, user, group, now, when)
  {
    if MemberAt(before, user, group, now) {
      UntouchedLeft(before, rows, after, user, group, when);
    }
  }

  lemma {:induction false} LeftIfInAfter(before: Rows, rows: Rows, after: Rows, user: nat, group: nat, now: Instant,
                                         when: Instant)
    requires Untouched(before, rows, user, group) && LeftIfIn(rows, after, user, group, now, when)
    ensures LeftIfIn(before, after, user, group, now, when)
  {
    UntouchedIsSame(before, rows, user, group);
    LeftOfUntouched(before, rows, after, user, group, when);
  }

  /**
   `end_payment_in_default_memberships`: members who have paid and are in the group now have left it as
   of a second ago, and so are out at this very instant, even if a membership ends now.
   */
  method EndDefaults(table: MembershipTable, users: seq<nat>, group: nat, groupLevel: int, processorLevel: int,
                     now: Instant)
      returns (r: Outcome)
    requires table.Valid() && Clear(table.rows)
    modifies table
    ensures table.Valid() && KeepsOrder(old(table.rows), table.rows) && !r.ExclusionViolated?
    ensures r.Done? ==> forall u :: u in users ==> LeftIfIn(old(table.rows), table.rows, u, group, now, now - 1.0)
    ensures r.Done? ==> forall u :: u in users ==> !MemberAt(table.rows, u, group, now)
    ensures r.PermissionDenied? ==> table.rows == old(table.rows)
    ensures forall u, g :: u !in users || g != group ==> Untouched(old(table.rows), table.rows, u, g)
  {
    var before, nextId := table.rows, table.nextId;
    r := Done;
    var k := 0;
    while k < |users|
      invariant k <= |users| && table.Valid() && KeepsOrder(before, table.rows) && r.Done?
      invariant forall j :: 0 <= j < k ==> LeftIfIn(before, table.rows, users[j], group, now, now - 1.0)
      invariant forall u, g :: u !in users[..k] || g != group ==> Untouched(before, table.rows, u, g)
    {
      ghost var rows := table.rows;
      r := LeaveIfIn(table, users[k], group, groupLevel, processorLevel, now, now - 1.0);
      if !r.Done? {
        table.rows, table.nextId := before, nextId;
        return;
      }
      OutOneMore(before, rows, table.rows, users, group, k, now);
      k := k + 1;
    }
    assert users[..k] == users;
    forall u | u in users
      ensures !MemberAt(table.rows, u, group, now)
    {
      OutNow(before, table.rows, u, group, now);
    }
  }

  lemma {:induction false} OutNow(before: Rows, after: Rows, user: nat, group: nat, now: Instant)
    requires LeftIfIn(before, after, user, group, now, now - 1.0)
    ensures !MemberAt(after, user, group, now)
  {
    if !MemberAt(before, user, group, now) {
      UntouchedIsSame(before, after, user, group);
    }
  }

  lemma {:induction false} OutOneMore(before: Rows, rows: Rows, after: Rows, users: seq<nat>, group: nat, k: nat,
                                      now: Instant)
    requires k < |users|
    requires forall j :: 0 <= j < k ==> LeftIfIn(before, rows, users[j], group, now, now - 1.0)
    requires forall u, g :: u !in users[..k] || g != group ==> Untouched(before, rows, u, g)
    requires LeftIfIn(rows, after, users[k], group, now, now - 1.0)
    requires forall u, g :: u != users[k] || g != group ==> Untouched(rows, after, u, g)
    ensures forall j :: 0 <= j < k + 1 ==> LeftIfIn(before, after, users[j], group, now, now - 1.0)
    ensures forall u, g :: u !in users[..k + 1] || g != group ==> Untouched(before, after, u, g)
  {
    assert users[..k + 1] == users[..k] + [users[k]];
    forall j | 0 <= j < k + 1
      ensures LeftIfIn(before, after, users[j], group, now, now - 1.0)
    {
      if users[j] != users[k] {
        LeftIfInThen(before, rows, after, users[j], group, now, now - 1.0);
      } else if users[k] in users[..k] {
        var i :| 0 <= i < k && users[i] == users[k];
        OutNow(before, rows, users[k], group, now);
        LeftIfInThen(before, rows, after, users[k], group, now, now - 1.0);
      } else {
        LeftIfInAfter(before, rows, after, users[k], group, now, now - 1.0);
      }
    }
    forall u, g | u !in users[..k + 1] || g != group
      ensures Untouched(before, after, u, g)
    {
      assert Untouched(before, rows, u, g) && Untouched(rows, after, u, g);
    }
  }

  // ----- moving out -----

  /**
   The membership part of `move_out`: a task for later if `when` lies in the future; otherwise the user
   has left, as of `when`, those of the groups it is in now, with its past in them as it was.
   */
  method MoveOut(table: MembershipTable, user: nat, groups: seq<nat>, level: nat -> int, processorLevel: int,
                 now: Instant, when: Instant)
      returns (r: Departure)
    requires table.Valid() && Clear(table.rows) && NoDuplicates(groups)
    modifies table
    ensures table.Valid() && KeepsOrder(old(table.rows), table.rows)
    ensures r.Scheduled? <==> when > now
    ensures r.Scheduled? ==> r.due == when && table.rows == old(table.rows)
    ensures r.Denied? ==> table.rows == old(table.rows)
    ensures r.Left? ==> forall g :: g in groups ==> LeftIfIn(old(table.rows), table.rows, user, g, now, when)
    ensures forall u, g :: u != user || g !in groups ==> Untouched(old(table.rows), table.rows, u, g)
  {
    if when > now {
      return Scheduled(when);
    }
    var before, nextId := table.rows, table.nextId;
    var k := 0;
    while k < |groups|
      invariant k <= |groups| && table.Valid() && KeepsOrder(before, table.rows)
      invariant forall j :: 0 <= j < k ==> LeftIfIn(before, table.rows, user, groups[j], now, when)
      invariant forall u, g :: u != user || g !in groups[..k] ==> Untouched(before, table.rows, u, g)
    {
      ghost var rows := table.rows;
      var outcome := LeaveIfIn(table, user, groups[k], level(groups[k]), processorLevel, now, when);
      if outcome != Done {
        table.rows, table.nextId := before, nextId;
        return Denied;
      }
      LeftOneMore(before, rows, table.rows, user, groups, k, now, when);
      k := k + 1;
    }
    assert groups[..k] == groups;
    return Left;
  }

  lemma {:induction false} LeftOneMore(before: Rows, rows: Rows, after: Rows, user: nat, groups: seq<nat>, k: nat,
                                       now: Instant, when: Instant)
    requires k < |groups| && NoDuplicates(groups)
    requires forall j :: 0 <= j < k ==> LeftIfIn(before, rows, user, groups[j], now, when)
    requires forall u, g :: u != user || g !in groups[..k] ==> Untouched(before, rows, u, g)
    requires LeftIfIn(rows, after, user, groups[k], now, when)
    requires forall u, g :: u != user || g != groups[k] ==> Untouched(rows, after, u, g)
    ensures forall j :: 0 <= j < k + 1 ==> LeftIfIn(before, after, user, groups[j], now, when)
    ensures forall u, g :: u != user || g !in groups[..k + 1] ==> Untouched(before, after, u, g)
  {
    assert groups[..k + 1] == groups[..k] + [groups[k]];
    forall j | 0 <= j < k + 1
      ensures LeftIfIn(before, after, user, groups[j], now, when)
    {
      if j == k {
        assert groups[k] !in groups[..k];
        LeftIfInAfter(before, rows, after, user, groups[k], now, when);
      } else {
        assert groups[j] != groups[k];
        LeftIfInThen(before, rows, after, user, groups[j], now, when);
      }
    }
    forall u, g | u != user || g !in groups[..k + 1]
      ensures Untouched(before, after, u, g)
    {
      assert Untouched(before, rows, u, g) && Untouched(rows, after, u, g);
    }
  }

  // ----- a whole round of actions -----

  /** Groups named by the configuration, their permission levels, and the level of the processor. */
  datatype Config = Config(inDefault: nat, member: nat, leaving: seq<nat>, level: nat -> int, processorLevel: int)

  function Now(c: Clock): Instant {
    c.now as real
  }

  function End(u: Member, fees: seq<Fee>, c: Clock): Instant
    requires Resolved(u, fees, c)
  {
    EndDate(u, FeeOf(u, fees, c).fee, c) as real
  }

  /** Ids identify users. */
  ghost predicate Identified(users: set<Member>) {
    forall u, v :: u in users && v in users && u.id == v.id ==> u == v
  }

  function IdsOf(users: set<Member>): set<nat> {
    set u | u in users :: u.id
  }

  /** What a round owes to a selected member of the member group: gone as of its end, or scheduled to be. */
  ghost predicate Ended(before: Rows, after: Rows, u: Member, fees: seq<Fee>, c: Clock, config: Config) {
    MemberAt(before, u.id, config.member, Now(c)) ==>
      && Resolved(u, fees, c)
      && (End(u, fees, c) <= Now(c) ==>
            forall g :: g in config.leaving ==> LeftIfIn(before, after, u.id, g, Now(c), End(u, fees, c)))
  }

  ghost predicate ToSchedule(before: Rows, u: Member, fees: seq<Fee>, c: Clock, config: Config) {
    MemberAt(before, u.id, config.member, Now(c)) && Resolved(u, fees, c) && End(u, fees, c) > Now(c)
  }

  /** Everything is as before for the user unless it had to leave at once. */
  ghost predicate SameUnlessEnded(before: Rows, after: Rows, u: Member, fees: seq<Fee>, c: Clock, config: Config) {
    !(MemberAt(before, u.id, config.member, Now(c)) && Resolved(u, fees, c) && End(u, fees, c) <= Now(c)) ==>
      forall g :: Untouched(before, after, u.id, g)
  }

  method EndOne(table: MembershipTable, u: Member, fees: seq<Fee>, c: Clock, config: Config) returns (r: Departure)
    requires table.Valid() && Clear(table.rows) && NoDuplicates(config.leaving)
    modifies table
    ensures table.Valid() && KeepsOrder(old(table.rows), table.rows)
    ensures !r.Denied? ==> Ended(old(table.rows), table.rows, u, fees, c, config)
    ensures !r.Denied? ==> SameUnlessEnded(old(table.rows), table.rows, u, fees, c, config)
    ensures !r.Denied? ==> (r.Scheduled? <==> ToSchedule(old(table.rows), u, fees, c, config))
    ensures r.Scheduled? ==> r.due == End(u, fees, c)
    ensures forall v, g :: v != u.id || g !in config.leaving ==> Untouched(old(table.rows), table.rows, v, g)
  {
    MemberNowMeaning(table.rows, u.id, config.member, Now(c));
    if !MemberNow(table.rows, u.id, config.member, Now(c)) {
      return Left;
    }
    var inDefaultDays := CountInDefaultDays(u.splits, c.today);
    var found := FeeFor(fees, c.now - inDefaultDays * DAY, c.now);
    if !found.Found? {
      return Denied;
    }
    var end := c.now - (inDefaultDays * DAY - found.fee.paymentDeadlineFinal);
    assert Resolved(u, fees, c) && end as real == End(u, fees, c);
    r := MoveOut(table, u.id, config.leaving, config.level, config.processorLevel, Now(c), end as real);
  }

  /** Everybody but these users is untouched. */
  ghost predicate UntouchedBut(before: Rows, after: Rows, ids: set<nat>) {
    forall u, g :: u !in ids ==> Untouched(before, after, u, g)
  }

  /** There is a task for the user exactly if its end lies in the future, and it is due then. */
  ghost predicate PlannedFor(scheduled: map<nat, Instant>, before: Rows, u: Member, fees: seq<Fee>, c: Clock,
                             config: Config) {
    && (u.id in scheduled <==> ToSchedule(before, u, fees, c, config))
    && (u.id in scheduled ==> scheduled[u.id] == End(u, fees, c))
  }

  /** All that a round owes to a user to be terminated. */
  ghost predicate Settled(before: Rows, after: Rows, scheduled: map<nat, Instant>, u: Member, fees: seq<Fee>,
                          c: Clock, config: Config) {
    && Ended(before, after, u, fees, c, config)
    && SameUnlessEnded(before, after, u, fees, c, config)
    && PlannedFor(scheduled, before, u, fees, c, config)
  }

  /** What has been settled stays so while other users are dealt with. */
  lemma {:induction false} SettledThen(before: Rows, rows: Rows, after: Rows, scheduled: map<nat, Instant>,
                                       more: map<nat, Instant>, u: Member, fees: seq<Fee>, c: Clock, config: Config)
    requires Settled(before, rows, scheduled, u, fees, c, config)
    requires forall g :: Untouched(rows, after, u.id, g)
    requires (u.id in more <==> u.id in scheduled) && (u.id in scheduled ==> more[u.id] == scheduled[u.id])
    ensures Settled(before, after, more, u, fees, c, config)
  {
    if MemberAt(before, u.id, config.member, Now(c)) && End(u, fees, c) <= Now(c) {
      forall g | g in config.leaving
        ensures LeftIfIn(before, after, u.id, g, Now(c), End(u, fees, c))
      {
        LeftIfInThen(before, rows, after, u.id, g, Now(c), End(u, fees, c));
      }
    } else {
      forall g
        ensures Untouched(before, after, u.id, g)
      {
        assert Untouched(before, rows, u.id, g) && Untouched(rows, after, u.id, g);
      }
    }
  }

  lemma {:induction false} SettledAfter(before: Rows, rows: Rows, after: Rows, scheduled: map<nat, Instant>,
                                        u: Member, fees: seq<Fee>, c: Clock, config: Config)
    requires forall g :: Untouched(before, rows, u.id, g)
    requires Settled(rows, after, scheduled, u, fees, c, config)
    ensures Settled(before, after, scheduled, u, fees, c, config)
  {
    UntouchedIsSame(before, rows, u.id, config.member);
    assert MemberAt(before, u.id, config.member, Now(c)) <==> MemberAt(rows, u.id, config.member, Now(c));
    if MemberAt(before, u.id, config.member, Now(c)) && End(u, fees, c) <= Now(c) {
      forall g | g in config.leaving
        ensures LeftIfIn(before, after, u.id, g, Now(c), End(u, fees, c))
      {
        LeftIfInAfter(before, rows, after, u.id, g, Now(c), End(u, fees, c));
      }
    } else {
      forall g
        ensures Untouched(before, after, u.id, g)
      {
        assert Untouched(before, rows, u.id, g) && Untouched(rows, after, u.id, g);
      }
    }
  }

  lemma UntouchedStep(before: Rows, rows: Rows, after: Rows, done: set<Member>, u: Member)
    requires UntouchedBut(before, rows, IdsOf(done)) && forall v, g :: v != u.id ==> Untouched(rows, after, v, g)
    ensures UntouchedBut(before, after, IdsOf(done + {u}))
  {
    assert u in done + {u} && IdsOf(done) <= IdsOf(done + {u});
    forall v, g | v !in IdsOf(done + {u})
      ensures Untouched(before, after, v, g)
    {
      assert v !in IdsOf(done);
      assert Untouched(before, rows, v, g) && Untouched(rows, after, v, g);
    }
  }

  lemma NotYet(users: set<Member>, done: set<Member>, u: Member)
    requires Identified(users) && done <= users && u in users && u !in done
    ensures u.id !in IdsOf(done)
  {
  }

  method EndAll(table: MembershipTable, users: set<Member>, fees: seq<Fee>, c: Clock, config: Config)
      returns (ok: bool, scheduled: map<nat, Instant>)
    requires table.Valid() && Clear(table.rows) && NoDuplicates(config.leaving) && Identified(users)
    modifies table
    ensures table.Valid() && KeepsOrder(old(table.rows), table.rows)
    ensures ok ==> forall u :: u in users ==> Settled(old(table.rows), table.rows, scheduled, u, fees, c, config)
    ensures ok ==> scheduled.Keys <= IdsOf(users)
    ensures ok ==> UntouchedBut(old(table.rows), table.rows, IdsOf(users))
  {
    ghost var before := table.rows;
    scheduled := map[];
    var todo := users;
    assert IdsOf(users - todo) == {};
    while todo != {}
      invariant todo <= users && table.Valid() && KeepsOrder(before, table.rows)
      invariant forall u :: u in users - todo ==> Settled(before, table.rows, scheduled, u, fees, c, config)
      invariant scheduled.Keys <= IdsOf(users - todo)
      invariant UntouchedBut(before, table.rows, IdsOf(users - todo))
      decreases todo
    {
      var u :| u in todo;
      ghost var rows, done, was := table.rows, users - todo, scheduled;
      var r := EndOne(table, u, fees, c, config);
      if r.Denied? {
        return false, map[];
      }
      NotYet(users, done, u);
      UntouchedStep(before, rows, table.rows, done, u);
      if r.Scheduled? {
        scheduled := scheduled[u.id := r.due];
      }
      SettledStep(before, rows, table.rows, was, scheduled, users, done, u, fees, c, config);
      todo := todo - {u};
      assert users - todo == done + {u};
    }
    assert users - todo == users;
    return true, scheduled;
  }

  lemma {:induction false} SettledStep(before: Rows, rows: Rows, after: Rows, scheduled: map<nat, Instant>,
                                       more: map<nat, Instant>, users: set<Member>, done: set<Member>, u: Member,
                                       fees: seq<Fee>, c: Clock, config: Config)
    requires Identified(users) && done <= users && u in users && u !in done
    requires forall v :: v in done ==> Settled(before, rows, scheduled, v, fees, c, config)
    requires scheduled.Keys <= IdsOf(done) && UntouchedBut(before, rows, IdsOf(done))
    requires forall v, g :: v != u.id ==> Untouched(rows, after, v, g)
    requires Ended(rows, after, u, fees, c, config) && SameUnlessEnded(rows, after, u, fees, c, config)
    requires more == if ToSchedule(rows, u, fees, c, config) then scheduled[u.id := End(u, fees, c)] else scheduled
    ensures forall v :: v in done + {u} ==> Settled(before, after, more, v, fees, c, config)
    ensures more.Keys <= IdsOf(done + {u})
  {
    NotYet(users, done, u);
    assert u in done + {u} && IdsOf(done) <= IdsOf(done + {u});
    forall v | v in done
      ensures Settled(before, after, more, v, fees, c, config)
    {
      assert v.id != u.id;
      SettledThen(before, rows, after, scheduled, more, v, fees, c, config);
    }
    assert PlannedFor(more, rows, u, fees, c, config);
    SettledAfter(before, rows, after, more, u, fees, c, config);
  }

  method BlockAll(table: MembershipTable, users: set<Member>, c: Clock, config: Config) returns (ok: bool)
    requires table.Valid() && Clear(table.rows) && Identified(users)
    modifies table
    ensures table.Valid() && KeepsOrder(old(table.rows), table.rows)
    ensures ok ==> forall u :: u in users ==> InUnlessIn(old(table.rows), table.rows, u.id, config.inDefault, Now(c))
    ensures ok ==> UntouchedBut(old(table.rows), table.rows, IdsOf(users))
    ensures ok ==> forall u, g :: g != config.inDefault ==> Untouched(old(table.rows), table.rows, u, g)
  {
    ghost var before := table.rows;
    var todo := users;
    assert IdsOf(users - todo) == {};
    while todo != {}
      invariant todo <= users && table.Valid() && KeepsOrder(before, table.rows)
      invariant forall u :: u in users - todo ==> InUnlessIn(before, table.rows, u.id, config.inDefault, Now(c))
      invariant UntouchedBut(before, table.rows, IdsOf(users - todo))
      invariant forall u, g :: g != config.inDefault ==> Untouched(before, table.rows, u, g)
      decreases todo
    {
      var u :| u in todo;
      ghost var rows, done := table.rows, users - todo;
      var r := BlockOne(table, u.id, config.inDefault, config.level(config.inDefault), config.processorLevel, Now(c));
      if !r.Done? {
        return false;
      }
      NotYet(users, done, u);
      UntouchedStep(before, rows, table.rows, done, u);
      BlockedStep(before, rows, table.rows, users, done, u, c, config);
      todo := todo - {u};
      assert users - todo == done + {u};
    }
    assert users - todo == users;
    return true;
  }

  lemma {:induction false} BlockedStep(before: Rows, rows: Rows, after: Rows, users: set<Member>, done: set<Member>,
                                       u: Member, c: Clock, config: Config)
    requires Identified(users) && done <= users && u in users && u !in done
    requires forall v :: v in done ==> InUnlessIn(before, rows, v.id, config.inDefault, Now(c))
    requires UntouchedBut(before, rows, IdsOf(done))
    requires InUnlessIn(rows, after, u.id, config.inDefault, Now(c))
    requires forall v, g :: v != u.id || g != config.inDefault ==> Untouched(rows, after, v, g)
    requires forall v, g :: g != config.inDefault ==> Untouched(before, rows, v, g)
    ensures forall v :: v in done + {u} ==> InUnlessIn(before, after, v.id, config.inDefault, Now(c))
    ensures forall v, g :: g != config.inDefault ==> Untouched(before, after, v, g)
  {
    NotYet(users, done, u);
    forall v | v in done
      ensures InUnlessIn(before, after, v.id, config.inDefault, Now(c))
    {
      assert v.id != u.id;
      UntouchedIsSame(rows, after, v.id, config.inDefault);
    }
    UntouchedIsSame(before, rows, u.id, config.inDefault);
    forall v, g | g != config.inDefault
      ensures Untouched(before, after, v, g)
    {
      assert Untouched(before, rows, v, g) && Untouched(rows, after, v, g);
    }
  }

  /**
   `take_actions_for_payment_in_default_users` on two sets of users without a common one: if nothing is
   refused, everybody to be blocked is in the default group from now on, unless it was in it now; every
   member to be terminated has left as of its end date, or has a task due then; their past in the
   groups and all other users are as before.  A refusal undoes everything.
   */
  method TakeActions(table: MembershipTable, blocked: set<Member>, terminated: set<Member>, fees: seq<Fee>, c: Clock,
                     config: Config)
      returns (ok: bool, scheduled: map<nat, Instant>)
    requires table.Valid() && Clear(table.rows) && NoDuplicates(config.leaving)
    requires Identified(blocked) && Identified(terminated) && IdsOf(blocked) !! IdsOf(terminated)
    modifies table
    ensures table.Valid() && KeepsOrder(old(table.rows), table.rows)
    ensures !ok ==> table.rows == old(table.rows) && scheduled == map[]
    ensures ok ==> forall u :: u in blocked ==> InUnlessIn(old(table.rows), table.rows, u.id, config.inDefault, Now(c))
    ensures ok ==> forall u :: u in terminated ==> Settled(old(table.rows), table.rows, scheduled, u, fees, c, config)
    ensures scheduled.Keys <= IdsOf(terminated)
    ensures UntouchedBut(old(table.rows), table.rows, IdsOf(blocked) + IdsOf(terminated))
  {
    var before, nextId := table.rows, table.nextId;
    ok := BlockAll(table, blocked, c, config);
    ghost var rows := table.rows;
    scheduled := map[];
    if ok {
      ok, scheduled := EndAll(table, terminated, fees, c, config);
    }
    if !ok {
      table.rows, table.nextId, scheduled := before, nextId, map[];
      return;
    }
    forall u | u in blocked
      ensures InUnlessIn(before, table.rows, u.id, config.inDefault, Now(c))
    {
      assert u.id in IdsOf(blocked);
      assert Untouched(rows, table.rows, u.id, config.inDefault);
      UntouchedIsSame(rows, table.rows, u.id, config.inDefault);
    }
    forall u | u in terminated
      ensures Settled(before, table.rows, scheduled, u, fees, c, config)
    {
      assert u.id in IdsOf(terminated);
      SettledAfter(before, rows, table.rows, scheduled, u, fees, c, config);
    }
    UntouchedChain(before, rows, table.rows, IdsOf(blocked), IdsOf(terminated));
  }

  lemma UntouchedChain(before: Rows, rows: Rows, after: Rows, ids: set<nat>, more: set<nat>)
    requires UntouchedBut(before, rows, ids) && UntouchedBut(rows, after, more)
    ensures UntouchedBut(before, after, ids + more)
  {
    forall u, g | u !in ids + more
      ensures Untouched(before, after, u, g)
    {
      assert Untouched(before, rows, u, g) && Untouched(rows, after, u, g);
    }
  }

  // ----- selecting and acting -----

  /** Final deadlines are whole days. */
  predicate WholeDays(fees: seq<Fee>) {
    forall f :: f in fees ==> f.paymentDeadlineFinal % DAY == 0
  }

  lemma {:induction false} FeeIsListed(fees: seq<Fee>, at: int, now: int)
    requires FeeFor(fees, at, now).Found?
    ensures FeeFor(fees, at, now).fee in fees
  {
    var found := FeesAt(fees, at);
    assert found != [] ==> found[0] in found;
  }

  /** With whole days, whoever is selected for termination leaves at once. */
  lemma {:induction false} SelectedLeavesAtOnce(u: Member, fees: seq<Fee>, c: Clock)
    requires WholeDays(fees) && IsTerminated(u, fees, c)
    ensures End(u, fees, c) <= Now(c)
  {
    var fee := FeeOf(u, fees, c).fee;
    FeeIsListed(fees, c.now - Days(u, c) * DAY, c.now);
    FutureEndIff(u, fee, c);
  }

  lemma {:induction false} NothingScheduled(terminated: set<Member>, before: Rows, after: Rows,
                                            scheduled: map<nat, Instant>, fees: seq<Fee>, c: Clock, config: Config)
    requires WholeDays(fees) && forall u :: u in terminated ==> IsTerminated(u, fees, c)
    requires forall u :: u in terminated ==> Settled(before, after, scheduled, u, fees, c, config)
    requires scheduled.Keys <= IdsOf(terminated)
    ensures scheduled == map[]
  {
    forall k | k in scheduled
      ensures false
    {
      var u :| u in terminated && u.id == k;
      SelectedLeavesAtOnce(u, fees, c);
    }
  }

  ghost function Affected(users: seq<Member>, fees: seq<Fee>, c: Clock): set<Member> {
    set u | u in users && (IsBlocked(u, fees, c) || IsTerminated(u, fees, c))
  }

  /** The member has left as of this end, or, if that lies in the future, there is a task for it. */
  ghost predicate GoneOrDue(before: Rows, after: Rows, scheduled: map<nat, Instant>, user: nat, end: Instant,
                            now: Instant, leaving: seq<nat>) {
    if end > now then user in scheduled && scheduled[user] == end && forall g :: Untouched(before, after, user, g)
    else user !in scheduled && forall g :: g in leaving ==> LeftIfIn(before, after, user, g, now, end)
  }

  /** What happens to a debtor, by the deadlines of the fee that decides. */
  ghost predicate RightlyTreated(before: Rows, after: Rows, scheduled: map<nat, Instant>, u: Member, fee: Fee, c: Clock,
                                 config: Config) {
    var now, end := c.now as real, (OverdueSince(u, c) + fee.paymentDeadlineFinal) as real;
    && (MustBlock(u, fee, c) ==> InUnlessIn(before, after, u.id, config.inDefault, now))
    && (MustEnd(u, fee, c) && MemberAt(before, u.id, config.member, now) ==>
          GoneOrDue(before, after, scheduled, u.id, end, now, config.leaving))
    && (!MustBlock(u, fee, c) && !(MustEnd(u, fee, c) && MemberAt(before, u.id, config.member, now)) ==>
          forall g :: Untouched(before, after, u.id, g))
  }

  lemma {:induction false} TreatedAsSelected(before: Rows, after: Rows, scheduled: map<nat, Instant>,
                                             users: seq<Member>, u: Member, fees: seq<Fee>, c: Clock,
                                             config: Config, fee: Fee)
    requires Identified(set v | v in users) && u in users && Resolved(u, fees, c) && FeeOf(u, fees, c).fee == fee
    requires IsBlocked(u, fees, c) <==> MustBlock(u, fee, c)
    requires IsTerminated(u, fees, c) <==> MustEnd(u, fee, c)
    requires IsBlocked(u, fees, c) ==> InUnlessIn(before, after, u.id, config.inDefault, Now(c))
    requires IsTerminated(u, fees, c) ==> Settled(before, after, scheduled, u, fees, c, config)
    requires UntouchedBut(before, after, IdsOf(Affected(users, fees, c)))
    ensures RightlyTreated(before, after, scheduled, u, fee, c, config)
  {
    if MustEnd(u, fee, c) {
      NeverBoth(u, fees, c);
      SettledMeaning(before, after, scheduled, u, fees, c, config, fee);
    } else if !MustBlock(u, fee, c) {
      NotAffected(users, u, fees, c);
    }
  }

  lemma {:induction false} SettledMeaning(before: Rows, after: Rows, scheduled: map<nat, Instant>, u: Member,
                                          fees: seq<Fee>, c: Clock, config: Config, fee: Fee)
    requires Settled(before, after, scheduled, u, fees, c, config)
    requires Resolved(u, fees, c) && FeeOf(u, fees, c).fee == fee
    ensures var now, end := c.now as real, (OverdueSince(u, c) + fee.paymentDeadlineFinal) as real;
      if MemberAt(before, u.id, config.member, now) then
        GoneOrDue(before, after, scheduled, u.id, end, now, config.leaving)
      else forall g :: Untouched(before, after, u.id, g)
  {
    assert End(u, fees, c) == (OverdueSince(u, c) + fee.paymentDeadlineFinal) as real;
  }

  lemma NotAffected(users: seq<Member>, u: Member, fees: seq<Fee>, c: Clock)
    requires Identified(set v | v in users) && u in users && !IsBlocked(u, fees, c) && !IsTerminated(u, fees, c)
    ensures u.id !in IdsOf(Affected(users, fees, c))
  {
    assert u in set v | v in users;
  }

  /**
   The selection and its actions at one instant: nobody is both blocked and terminated, everybody who
   is neither is untouched, and if the final deadlines are whole days, nothing is left for later.
   */
  method SelectAndAct(table: MembershipTable, users: seq<Member>, fees: seq<Fee>, c: Clock, config: Config)
      returns (selection: Selection, ok: bool, scheduled: map<nat, Instant>)
    requires table.Valid() && Clear(table.rows) && NoDuplicates(config.leaving)
    requires Identified(set u | u in users)
    modifies table
    ensures table.Valid() && KeepsOrder(old(table.rows), table.rows)
    ensures !ok ==> table.rows == old(table.rows)
    ensures ok ==> selection.Selection?
    ensures ok ==> forall u :: u in users && IsBlocked(u, fees, c) ==>
              InUnlessIn(old(table.rows), table.rows, u.id, config.inDefault, Now(c))
    ensures ok ==> forall u :: u in users && IsTerminated(u, fees, c) ==>
              Settled(old(table.rows), table.rows, scheduled, u, fees, c, config)
    ensures ok ==> UntouchedBut(old(table.rows), table.rows, IdsOf(Affected(users, fees, c)))
    ensures ok && WholeDays(fees) ==> scheduled == map[]
    ensures ok ==> forall u, i ::
              u in users && u.paysFee && Balance(u.splits) > 0 && Decides(fees, OverdueSince(u, c), c.now, i) ==>
              RightlyTreated(old(table.rows), table.rows, scheduled, u, fees[i], c, config)
  {
    selection := SelectInDefault(users, fees, c);
    ok, scheduled := false, map[];
    if selection.Selection? {
      ghost var before := table.rows;
      IdsApart(users, selection.blocked, selection.terminated, fees, c);
      ok, scheduled := TakeActions(table, selection.blocked, selection.terminated, fees, c, config);
      assert IdsOf(Affected(users, fees, c)) == IdsOf(selection.blocked) + IdsOf(selection.terminated);
      if ok && WholeDays(fees) {
        NothingScheduled(selection.terminated, before, table.rows, scheduled, fees, c, config);
      }
      if ok {
        forall u, i |
          u in users && u.paysFee && Balance(u.splits) > 0 && Decides(fees, OverdueSince(u, c), c.now, i)
          ensures RightlyTreated(before, table.rows, scheduled, u, fees[i], c, config)
        {
          SelectionMeaning(u, fees, c, i);
          TreatedAsSelected(before, table.rows, scheduled, users, u, fees, c, config, fees[i]);
        }
      }
    }
  }

  lemma {:induction false} IdsApart(users: seq<Member>, blocked: set<Member>, terminated: set<Member>, fees: seq<Fee>,
                                    c: Clock)
    requires Identified(set u | u in users)
    requires forall u :: u in blocked <==> u in users && IsBlocked(u, fees, c)
    requires forall u :: u in terminated <==> u in users && IsTerminated(u, fees, c)
    ensures Identified(blocked) && Identified(terminated) && IdsOf(blocked) !! IdsOf(terminated)
  {
    forall u, v | u in blocked && v in terminated
      ensures u.id != v.id
    {
      NeverBoth(u, fees, c);
    }
  }
}
