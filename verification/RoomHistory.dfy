/**
 The history of rooms: the trigger `user_room_change_update_history` of `pycroft/model/user.py` and the
 exclusion constraint on its table.  The trigger only ever creates periods [now, oo) and cuts them.
 */
module RoomHistory {
  import opened Wrappers

  type Instant = real

  /** A half-open range: nothing, [begin, oo) or [begin, end). */
  datatype Period = Nothing | Since(begin: Instant) | During(begin: Instant, end: Instant) {

    predicate Has(t: Instant) {
      match this
      case Nothing => false
      case Since(b) => b <= t
      case During(b, e) => b <= t < e
    }

    /** `&&` with [now, oo). */
    predicate Reaches(now: Instant) {
      match this
      case Nothing => false
      case Since(_) => true
      case During(b, e) => b < e && now < e
    }

    /** The difference with [now, oo). */
    function Until(now: Instant): Period {
      match this
      case Nothing => Nothing
      case Since(b) => if b < now then During(b, now) else Nothing
      case During(b, e) => if e <= now then this else if b < now then During(b, now) else Nothing
    }
  }

  datatype Entry = Entry(user: nat, room: nat, period: Period)

  type Entries = seq<Entry>

  /** The rooms of the users and their history. */
  datatype State = State(rooms: map<nat, nat>, entries: Entries)

  /** A statement that sets the room of a user, or clears it. */
  datatype Change = Change(user: nat, room: Option<nat>, at: Instant)

  function RoomOf(s: State, user: nat): Option<nat> {
    if user in s.rooms then Some(s.rooms[user]) else None
  }

  function CutOne(e: Entry, user: nat, room: nat, now: Instant): Entry {
    if e.room == room && e.user == user && e.period.Reaches(now) then e.(period := e.period.Until(now)) else e
  }

  function Cut(es: Entries, user: nat, room: nat, now: Instant): (r: Entries)
    ensures |r| == |es|
    ensures forall i :: 0 <= i < |es| ==> r[i] == CutOne(es[i], user, room, now)
  {
    if es == [] then [] else [CutOne(es[0], user, room, now)] + Cut(es[1..], user, room, now)
  }

  /** The exclusion constraint for a period [now, oo). */
  predicate Admits(es: Entries, user: nat, room: nat, now: Instant) {
    forall e :: e in es && e.room == room && e.user == user ==> !e.period.Reaches(now)
  }

  function SetRoom(rooms: map<nat, nat>, user: nat, room: Option<nat>): map<nat, nat> {
    match room
    case Some(r) => rooms[user := r]
    case None => rooms - {user}
  }

  function Closed(s: State, c: Change): Entries {
    match RoomOf(s, c.user)
    case Some(was) => Cut(s.entries, c.user, was, c.at)
    case None => s.entries
  }

  /** The state after a change that the constraint admits. */
  function After(s: State, c: Change): State {
    if RoomOf(s, c.user) == c.room then s
    else State(SetRoom(s.rooms, c.user, c.room),
               match c.room
               case None => Closed(s, c)
               case Some(r) => Closed(s, c) + [Entry(c.user, r, Since(c.at))])
  }

  predicate Succeeds(s: State, c: Change) {
    RoomOf(s, c.user) == c.room || c.room == None || Admits(Closed(s, c), c.user, c.room.value, c.at)
  }

  lemma {:induction false} ReachesMeaning(p: Period, now: Instant)
    ensures p.Reaches(now) <==> exists t :: t >= now && p.Has(t)
  {
    match p
    case Nothing =>
    case Since(b) =>
      var t := if b < now then now else b;
      assert t >= now && p.Has(t);
    case During(b, e) =>
      if b < e && now < e {
        var t := if b < now then now else b;
        assert t >= now && p.Has(t);
      }
  }

  /** Cutting keeps the instants before now, and no others. */
  lemma UntilMeaning(p: Period, now: Instant, t: Instant)
    ensures p.Until(now).Has(t) <==> p.Has(t) && t < now
  {
  }

  lemma {:induction false} CutOthers(es: Entries, user: nat, room: nat, other: nat, now: Instant)
    requires room != other
    ensures Admits(Cut(es, user, room, now), user, other, now) <==> Admits(es, user, other, now)
  {
    var cut := Cut(es, user, room, now);
    forall i | 0 <= i < |es|
      ensures es[i] in es && cut[i] in cut
    {
    }
  }

  /** On every table: a change is refused exactly if another entry names the new room for an instant to come. */
  lemma {:induction false} RefusedIff(s: State, c: Change)
    ensures !Succeeds(s, c) <==>
      && c.room.Some? && !(c.user in s.rooms && s.rooms[c.user] == c.room.value)
      && exists e, t :: e in s.entries && e.user == c.user && e.room == c.room.value && t >= c.at && e.period.Has(t)
  {
    if RoomOf(s, c.user).Some? && c.room.Some? && RoomOf(s, c.user) != c.room {
      CutOthers(s.entries, c.user, RoomOf(s, c.user).value, c.room.value, c.at);
    }
    forall e | e in s.entries
      ensures e.period.Reaches(c.at) <==> exists t :: t >= c.at && e.period.Has(t)
    {
      ReachesMeaning(e.period, c.at);
    }
  }

  // ----- what the history is about -----

  /** The room of a user at an instant: that of the last change up to it. */
  function RoomAt(trace: seq<Change>, user: nat, t: Instant): Option<nat> {
    if trace == [] then None else
      var last := trace[|trace| - 1];
      if last.user == user && last.at <= t then last.room else RoomAt(trace[..|trace| - 1], user, t)
  }

  /** Some entry names the room for the instant. */
  ghost predicate Names(es: Entries, user: nat, room: nat, t: Instant) {
    exists e :: e in es && e.user == user && e.room == room && e.period.Has(t)
  }

  ghost predicate NonDecreasing(trace: seq<Change>) {
    forall i, j :: 0 <= i < j < |trace| ==> trace[i].at <= trace[j].at
  }

  /** Everything in the table happened by now. */
  predicate Past(e: Entry, now: Instant) {
    match e.period
    case Nothing => true
    case Since(b) => b <= now
    case During(b, end) => b < end <= now
  }

  ghost predicate AllPast(es: Entries, now: Instant) {
    forall e :: e in es ==> Past(e, now)
  }

  /** Entries of one user share no instant. */
  predicate Apart(d: Entry, e: Entry) {
    d.user == e.user ==>
      match (d.period, e.period)
      case (Nothing, _) => true
      case (_, Nothing) => true
      case (Since(_), Since(_)) => false
      case (Since(b), During(_, end)) => end <= b
      case (During(_, end), Since(b)) => end <= b
      case (During(b, end), During(b', end')) => end <= b' || end' <= b
  }

  lemma ApartMeaning(d: Entry, e: Entry, t: Instant)
    requires Apart(d, e) && d.user == e.user
    ensures !(d.period.Has(t) && e.period.Has(t))
  {
  }

  ghost predicate Disjoint(es: Entries) {
    forall i, j :: 0 <= i < j < |es| ==> Apart(es[i], es[j])
  }

  /** The open entries are those of the present rooms. */
  ghost predicate OpenNamesRoom(s: State) {
    && (forall e :: e in s.entries && e.period.Since? ==> RoomOf(s, e.user) == Some(e.room))
    && (forall u :: u in s.rooms ==> exists e :: e in s.entries && e.user == u && e.period.Since?)
  }

  ghost predicate Faithful(s: State, trace: seq<Change>) {
    forall u: nat, r: nat, t: Instant :: Names(s.entries, u, r, t) <==> RoomAt(trace, u, t) == Some(r)
  }

  /** The rooms are those after the last change. */
  ghost predicate UpToDate(s: State, trace: seq<Change>, now: Instant) {
    forall u: nat, t: Instant :: now <= t ==> RoomAt(trace, u, t) == RoomOf(s, u)
  }

  ghost predicate Inv(s: State, trace: seq<Change>, now: Instant) {
    && AllPast(s.entries, now)
    && Disjoint(s.entries)
    && OpenNamesRoom(s)
    && Faithful(s, trace)
    && UpToDate(s, trace, now)
  }

  // ----- one change -----

  lemma CutMeaning(e: Entry, user: nat, room: nat, now: Instant, t: Instant)
    requires Past(e, now)
    ensures var r := CutOne(e, user, room, now);
      && r.user == e.user && r.room == e.room && Past(r, now)
      && (r.period.Has(t) <==> e.period.Has(t) && !(e.user == user && e.room == room && e.period.Since? && now <= t))
      && (r.period.Since? <==> e.period.Since? && !(e.user == user && e.room == room))
  {
  }

  lemma CutApart(d: Entry, e: Entry, user: nat, room: nat, now: Instant)
    requires Past(d, now) && Past(e, now) && Apart(d, e)
    ensures Apart(CutOne(d, user, room, now), CutOne(e, user, room, now))
  {
  }

  /** After closing, no period of the user reaches into the future. */
  lemma {:induction false} ClosedNotOpen(s: State, c: Change)
    requires AllPast(s.entries, c.at) && OpenNamesRoom(s)
    ensures AllPast(Closed(s, c), c.at)
    ensures forall e :: e in Closed(s, c) && e.user == c.user ==> !e.period.Since? && !e.period.Reaches(c.at)
  {
    forall e | e in Closed(s, c)
      ensures Past(e, c.at) && (e.user == c.user ==> !e.period.Since?)
    {
      if RoomOf(s, c.user).Some? {
        var i :| 0 <= i < |Closed(s, c)| && Closed(s, c)[i] == e;
        assert s.entries[i] in s.entries;
        CutMeaning(s.entries[i], c.user, RoomOf(s, c.user).value, c.at, c.at);
      }
    }
  }

  lemma {:induction false} ClosedDisjoint(s: State, c: Change)
    requires AllPast(s.entries, c.at) && Disjoint(s.entries)
    ensures Disjoint(Closed(s, c))
  {
    if RoomOf(s, c.user).Some? {
      forall i, j | 0 <= i < j < |s.entries|
        ensures Apart(Closed(s, c)[i], Closed(s, c)[j])
      {
        assert s.entries[i] in s.entries && s.entries[j] in s.entries;
        CutApart(s.entries[i], s.entries[j], c.user, RoomOf(s, c.user).value, c.at);
      }
    }
  }

  lemma {:induction false} ClosedNames(s: State, c: Change, u: nat, r: nat, t: Instant)
    requires AllPast(s.entries, c.at) && OpenNamesRoom(s)
    requires t < c.at || u != c.user
    ensures Names(Closed(s, c), u, r, t) <==> Names(s.entries, u, r, t)
  {
    if RoomOf(s, c.user).Some? {
      var was := RoomOf(s, c.user).value;
      if Names(s.entries, u, r, t) {
        var e :| e in s.entries && e.user == u && e.room == r && e.period.Has(t);
        var i :| 0 <= i < |s.entries| && s.entries[i] == e;
        CutMeaning(e, c.user, was, c.at, t);
        assert Closed(s, c)[i] in Closed(s, c);
      }
      if Names(Closed(s, c), u, r, t) {
        var e :| e in Closed(s, c) && e.user == u && e.room == r && e.period.Has(t);
        var i :| 0 <= i < |s.entries| && Closed(s, c)[i] == e;
        assert s.entries[i] in s.entries;
        CutMeaning(s.entries[i], c.user, was, c.at, t);
      }
    }
  }

  /** From the change on, the closed entries name nothing for the user. */
  lemma {:induction false} ClosedSilent(s: State, c: Change, r: nat, t: Instant)
    requires AllPast(s.entries, c.at) && OpenNamesRoom(s) && c.at <= t
    ensures !Names(Closed(s, c), c.user, r, t)
  {
    ClosedNotOpen(s, c);
  }

  lemma {:induction false} NamesAppended(es: Entries, e: Entry, u: nat, r: nat, t: Instant)
    ensures Names(es + [e], u, r, t) <==> Names(es, u, r, t) || (e.user == u && e.room == r && e.period.Has(t))
  {
    assert e in es + [e];
    if Names(es, u, r, t) {
      var d :| d in es && d.user == u && d.room == r && d.period.Has(t);
      assert d in es + [e];
    }
  }

  lemma TraceAppended(trace: seq<Change>, c: Change, u: nat, t: Instant)
    ensures RoomAt(trace + [c], u, t) == if c.user == u && c.at <= t then c.room else RoomAt(trace, u, t)
  {
    assert (trace + [c])[..|trace|] == trace;
  }

  lemma {:induction false} FaithfulAfter(s: State, trace: seq<Change>, now: Instant, c: Change)
    requires Inv(s, trace, now) && now <= c.at
    ensures Faithful(After(s, c), trace + [c])
  {
    LaterPast(s.entries, now, c.at);
    forall u: nat, r: nat, t: Instant
      ensures Names(After(s, c).entries, u, r, t) <==> RoomAt(trace + [c], u, t) == Some(r)
    {
      TraceAppended(trace, c, u, t);
      assert Names(s.entries, u, r, t) <==> RoomAt(trace, u, t) == Some(r);
      if RoomOf(s, c.user) == c.room {
        assert now <= t ==> RoomAt(trace, u, t) == RoomOf(s, u);
      } else {
        if t < c.at || u != c.user {
          ClosedNames(s, c, u, r, t);
        } else {
          ClosedSilent(s, c, r, t);
        }
        if c.room.Some? {
          NamesAppended(Closed(s, c), Entry(c.user, c.room.value, Since(c.at)), u, r, t);
        }
      }
    }
  }

  lemma LaterPast(es: Entries, now: Instant, later: Instant)
    requires AllPast(es, now) && now <= later
    ensures AllPast(es, later)
  {
  }

  lemma {:induction false} UpToDateAfter(s: State, trace: seq<Change>, now: Instant, c: Change)
    requires UpToDate(s, trace, now) && now <= c.at
    ensures UpToDate(After(s, c), trace + [c], c.at)
  {
    forall u: nat, t: Instant | c.at <= t
      ensures RoomAt(trace + [c], u, t) == RoomOf(After(s, c), u)
    {
      TraceAppended(trace, c, u, t);
      assert RoomAt(trace, u, t) == RoomOf(s, u);
    }
  }

  lemma {:induction false} DisjointAfter(s: State, c: Change)
    requires AllPast(s.entries, c.at) && Disjoint(s.entries) && OpenNamesRoom(s)
    ensures Disjoint(After(s, c).entries) && AllPast(After(s, c).entries, c.at) && Succeeds(s, c)
  {
    ClosedDisjoint(s, c);
    ClosedNotOpen(s, c);
    if RoomOf(s, c.user) != c.room && c.room.Some? {
      var es, e := Closed(s, c), Entry(c.user, c.room.value, Since(c.at));
      forall i, j | 0 <= i < j < |es + [e]|
        ensures Apart((es + [e])[i], (es + [e])[j])
      {
        assert es[i] in es;
      }
    }
  }

  lemma {:induction false} OpenAfter(s: State, c: Change)
    requires AllPast(s.entries, c.at) && OpenNamesRoom(s)
    ensures OpenNamesRoom(After(s, c))
  {
    if RoomOf(s, c.user) != c.room {
      ClosedNotOpen(s, c);
      OpenClosed(s, c);
      var after := After(s, c);
      forall e | e in after.entries && e.period.Since?
        ensures RoomOf(after, e.user) == Some(e.room)
      {
        if e in Closed(s, c) {
          assert e.user != c.user && RoomOf(s, e.user) == Some(e.room);
        }
      }
      forall u | u in after.rooms
        ensures exists e :: e in after.entries && e.user == u && e.period.Since?
      {
        if u == c.user {
          assert Entry(c.user, c.room.value, Since(c.at)) in after.entries;
        } else {
          var e :| e in Closed(s, c) && e.user == u && e.period.Since?;
          assert e in after.entries;
        }
      }
    }
  }

  lemma {:induction false} OpenClosed(s: State, c: Change)
    requires AllPast(s.entries, c.at) && OpenNamesRoom(s)
    ensures forall e :: e in Closed(s, c) && e.user != c.user && e.period.Since? ==> RoomOf(s, e.user) == Some(e.room)
    ensures forall u :: u in s.rooms && u != c.user ==> exists e :: e in Closed(s, c) && e.user == u && e.period.Since?
  {
    forall e | e in Closed(s, c) && e.user != c.user
      ensures e in s.entries
    {
      if RoomOf(s, c.user).Some? {
        var i :| 0 <= i < |s.entries| && Closed(s, c)[i] == e;
        CutMeaning(s.entries[i], c.user, RoomOf(s, c.user).value, c.at, c.at);
      }
    }
    forall u | u in s.rooms && u != c.user
      ensures exists e :: e in Closed(s, c) && e.user == u && e.period.Since?
    {
      var e :| e in s.entries && e.user == u && e.period.Since?;
      var i :| 0 <= i < |s.entries| && s.entries[i] == e;
      assert Closed(s, c)[i] == e;
      assert e in Closed(s, c);
    }
  }

  /** Every change with a clock that does not run backwards succeeds and keeps the invariant. */
  lemma {:induction false} ChangeKeepsInv(s: State, trace: seq<Change>, now: Instant, c: Change)
    requires Inv(s, trace, now) && now <= c.at
    ensures Succeeds(s, c) && Inv(After(s, c), trace + [c], c.at)
  {
    LaterPast(s.entries, now, c.at);
    FaithfulAfter(s, trace, now, c);
    UpToDateAfter(s, trace, now, c);
    DisjointAfter(s, c);
    OpenAfter(s, c);
  }

  // ----- runs -----

  function Run(trace: seq<Change>): State {
    if trace == [] then State(map[], []) else After(Run(trace[..|trace| - 1]), trace[|trace| - 1])
  }

  /** The clock after a run. */
  function Latest(trace: seq<Change>): Instant {
    if trace == [] then 0.0 else trace[|trace| - 1].at
  }

  /**
   Along every run with a clock that does not run backwards, no change meets the exclusion constraint
   and the history is the faithful trace of the rooms.
   */
  lemma {:induction false} RunFaithful(trace: seq<Change>)
    requires NonDecreasing(trace)
    ensures forall now :: Latest(trace) <= now ==> Inv(Run(trace), trace, now)
    ensures trace != [] ==> Succeeds(Run(trace[..|trace| - 1]), trace[|trace| - 1])
  {
    if trace == [] {
    } else {
      var before, c := trace[..|trace| - 1], trace[|trace| - 1];
      RunFaithful(before);
      assert before + [c] == trace;
      ChangeKeepsInv(Run(before), before, c.at, c);
    }
    forall now | Latest(trace) <= now
      ensures Inv(Run(trace), trace, now)
    {
      if trace != [] {
        LaterPast(Run(trace).entries, Latest(trace), now);
      }
    }
  }

  /** At every instant at most one entry of a user applies, and it names the room of the last change. */
  lemma {:induction false} EntryAt(trace: seq<Change>, i: nat, t: Instant)
    requires NonDecreasing(trace) && i < |Run(trace).entries|
    ensures var es := Run(trace).entries;
      es[i].period.Has(t) ==>
        && RoomAt(trace, es[i].user, t) == Some(es[i].room)
        && forall j :: 0 <= j < |es| && es[j].user == es[i].user && es[j].period.Has(t) ==> j == i
  {
    RunFaithful(trace);
    var es := Run(trace).entries;
    assert Inv(Run(trace), trace, Latest(trace));
    if es[i].period.Has(t) {
      assert es[i] in es;
      assert Names(es, es[i].user, es[i].room, t);
      forall j | 0 <= j < |es| && es[j].user == es[i].user && es[j].period.Has(t)
        ensures j == i
      {
        assert j < i ==> Apart(es[j], es[i]);
        assert i < j ==> Apart(es[i], es[j]);
      }
    }
  }

  /** Moving in and out at one instant leaves an empty range. */
  lemma {:induction false} SameInstant(user: nat, room: nat, at: Instant)
    ensures
      var trace := [Change(user, Some(room), at), Change(user, None, at)];
      NonDecreasing(trace) && Run(trace) == State(map[], [Entry(user, room, Nothing)])
  {
    var moveIn, moveOut := Change(user, Some(room), at), Change(user, None, at);
    assert [moveIn, moveOut][..1] == [moveIn] && [moveIn][..|[moveIn]| - 1] == [];
    var none: State, s := Run([]), Run([moveIn]);
    assert none == State(map[], []) && s == After(none, moveIn);
    assert none.rooms[user := room] == map[user := room];
    assert none.entries + [Entry(user, room, Since(at))] == [Entry(user, room, Since(at))];
    assert s == State(map[user := room], [Entry(user, room, Since(at))]);
    assert Cut(s.entries, user, room, at) == [Entry(user, room, Nothing)];
    assert map[user := room] - {user} == map[];
  }

  class Residents {
    var rooms: map<nat, nat>
    var entries: Entries

    constructor ()
      ensures Tables() == State(map[], [])
    {
      rooms, entries := map[], [];
    }

    function Tables(): State
      reads this
    {
      State(rooms, entries)
    }

    /** The `UPDATE` of the trigger. */
    method CutEntries(user: nat, room: nat, now: Instant)
      modifies this`entries
      ensures entries == Cut(old(entries), user, room, now)
    {
      var k := 0;
      while k < |entries|
        invariant k <= |entries| == |old(entries)|
        invariant forall i :: 0 <= i < k ==> entries[i] == CutOne(old(entries)[i], user, room, now)
        invariant forall i :: k <= i < |entries| ==> entries[i] == old(entries)[i]
      {
        entries := entries[k := CutOne(entries[k], user, room, now)];
        k := k + 1;
      }
    }

    /** A change of room with its trigger; a violated constraint undoes it. */
    method Assign(c: Change) returns (ok: bool)
      modifies this
      ensures ok == Succeeds(old(Tables()), c)
      ensures Tables() == if ok then After(old(Tables()), c) else old(Tables())
    {
      var before := entries;
      var was := RoomOf(Tables(), c.user);
      if was == c.room {
        return true;
      }
      if was.Some? {
        CutEntries(c.user, was.value, c.at);
      }
      if c.room.Some? {
        if !Admits(entries, c.user, c.room.value, c.at) {
          entries := before;
          return false;
        }
        entries := entries + [Entry(c.user, c.room.value, Since(c.at))];
      }
      rooms := SetRoom(rooms, c.user, c.room);
      return true;
    }

    /** Replaying changes from the empty tables: none is refused. */
    method Replay(trace: seq<Change>)
      requires NonDecreasing(trace) && Tables() == State(map[], [])
      modifies this
      ensures Tables() == Run(trace) && Inv(Tables(), trace, Latest(trace))
    {
      var k := 0;
      while k < |trace|
        invariant k <= |trace| && Tables() == Run(trace[..k])
      {
        var next := trace[..k + 1];
        assert next[..k] == trace[..k] && next[k] == trace[k];
        RunFaithful(next);
        var ok := Assign(trace[k]);
        assert ok;
        k := k + 1;
      }
      assert trace[..k] == trace;
      RunFaithful(trace);
    }
  }
}
