/**
 Properties granted through groups: `has_property` of `pycroft/model/user.py` in the program, and the
 grouped query of `pycroft/model/property.py` in the database.
 */
module Properties {
  import opened Wrappers
  import opened Intervals
  import opened Memberships

  /** A row of the table `Property`. */
  datatype Property = Property(group: nat, name: string, granted: bool)

  /** A row of the query. */
  datatype Evaluated = Evaluated(user: nat, name: string, denied: bool)

  // ----- in the database -----

  /** The joined rows of a group of the `GROUP BY`: a membership that contains the time, and a property. */
  predicate Joins(m: Membership, p: Property, user: nat, name: string, at: Instant) {
    m.user == user && m.activeDuring.Has(at) && p.group == m.group && p.name == name
  }

  /** Some joined row grants, or denies. */
  predicate SomeRow(rows: Rows, props: seq<Property>, user: nat, name: string, at: Instant, granted: bool) {
    exists m, p :: m in rows && p in props && Joins(m, p, user, name, at) && p.granted == granted
  }

  /** `every(granted)`: a granted property. */
  predicate RowGranted(rows: Rows, props: seq<Property>, user: nat, name: string, at: Instant) {
    && (SomeRow(rows, props, user, name, at, true) || SomeRow(rows, props, user, name, at, false))
    && (forall m, p :: m in rows && p in props && Joins(m, p, user, name, at) ==> p.granted)
  }

  /** `bool_or(granted) and not every(granted)`: granted and denied. */
  predicate RowDenied(rows: Rows, props: seq<Property>, user: nat, name: string, at: Instant) {
    && SomeRow(rows, props, user, name, at, true)
    && !(forall m, p :: m in rows && p in props && Joins(m, p, user, name, at) ==> p.granted)
  }

  /** The union of the two queries. */
  function Evaluate(rows: Rows, props: seq<Property>, at: Instant): set<Evaluated> {
    (set m, p | m in rows && p in props && Joins(m, p, m.user, p.name, at)
                && RowGranted(rows, props, m.user, p.name, at)
       :: Evaluated(m.user, p.name, false))
    + (set m, p | m in rows && p in props && Joins(m, p, m.user, p.name, at)
                  && RowDenied(rows, props, m.user, p.name, at)
         :: Evaluated(m.user, p.name, true))
  }

  /** A name is granted if some active group grants it and none denies it, denied if there are both. */
  lemma {:induction false} EvaluateMeaning(rows: Rows, props: seq<Property>, user: nat, name: string, at: Instant)
    ensures Evaluated(user, name, false) in Evaluate(rows, props, at)
            <==> SomeRow(rows, props, user, name, at, true) && !SomeRow(rows, props, user, name, at, false)
    ensures Evaluated(user, name, true) in Evaluate(rows, props, at)
            <==> SomeRow(rows, props, user, name, at, true) && SomeRow(rows, props, user, name, at, false)
  {
    if SomeRow(rows, props, user, name, at, true) {
      var m, p :| m in rows && p in props && Joins(m, p, user, name, at) && p.granted;
      assert Joins(m, p, m.user, p.name, at);
      assert RowGranted(rows, props, m.user, p.name, at) ==>
        Evaluated(m.user, p.name, false) in Evaluate(rows, props, at);
      assert RowDenied(rows, props, m.user, p.name, at) ==>
        Evaluated(m.user, p.name, true) in Evaluate(rows, props, at);
    }
  }

  /** No name is both granted and denied. */
  lemma {:induction false} NeverGrantedAndDenied(rows: Rows, props: seq<Property>, user: nat, name: string, at: Instant)
    ensures !(Evaluated(user, name, false) in Evaluate(rows, props, at)
              && Evaluated(user, name, true) in Evaluate(rows, props, at))
  {
    EvaluateMeaning(rows, props, user, name, at);
  }

  // ----- in the program -----

  /** `property_grants[name]` of a group: properties are keyed by name, so the last row loaded counts. */
  function Grant(props: seq<Property>, group: nat, name: string): Option<bool> {
    if props == [] then None else
      var last := props[|props| - 1];
      if last.group == group && last.name == name then Some(last.granted)
      else Grant(props[..|props| - 1], group, name)
  }

  /** `active_property_groups(single(when))`, by the range operator of the database. */
  function ActiveGroups(rows: Rows, user: nat, when: Instant): (r: seq<nat>)
    ensures forall g :: g in r <==>
              exists m :: m in rows && m.user == user && m.group == g && Conflict(m.activeDuring, Moment(when))
  {
    if rows == [] then []
    else
      var rest := ActiveGroups(rows[1..], user, when);
      if rows[0].user == user && Conflict(rows[0].activeDuring, Moment(when)) then [rows[0].group] + rest else rest
  }

  function Flags(groups: seq<nat>, props: seq<Property>, name: string): seq<bool> {
    if groups == [] then []
    else match Grant(props, groups[0], name)
      case None => Flags(groups[1..], props, name)
      case Some(granted) => [granted] + Flags(groups[1..], props, name)
  }

  /** `has_property`: all flags are set, and there is one. */
  predicate HasProperty(rows: Rows, props: seq<Property>, user: nat, name: string, when: Instant) {
    var flags := Flags(ActiveGroups(rows, user, when), props, name);
    (forall f :: f in flags ==> f) && exists f :: f in flags && f
  }

  lemma {:induction false} FlagsMeaning(groups: seq<nat>, props: seq<Property>, name: string, granted: bool)
    ensures granted in Flags(groups, props, name) <==> exists g :: g in groups && Grant(props, g, name) == Some(granted)
  {
    if groups == [] {
    } else {
      FlagsMeaning(groups[1..], props, name, granted);
      assert groups[0] in groups;
    }
  }

  /** A group the user is in at the time has this flag. */
  ghost predicate SomeFlag(rows: Rows, props: seq<Property>, user: nat, name: string, when: Instant, granted: bool) {
    exists m :: m in rows && m.user == user && m.activeDuring.Has(when) && Grant(props, m.group, name) == Some(granted)
  }

  lemma {:induction false} ActiveNow(m: Membership, when: Instant)
    ensures Conflict(m.activeDuring, Moment(when)) <==> m.activeDuring.Has(when)
  {
    if !m.activeDuring.Empty() {
      OverlapsMeaning(m.activeDuring, Moment(when));
      assert Moment(when).Has(when) && forall p :: Moment(when).Has(p) ==> p == when;
    }
  }

  lemma {:induction false} HasPropertyMeaning(rows: Rows, props: seq<Property>, user: nat, name: string, when: Instant)
    ensures HasProperty(rows, props, user, name, when)
            <==> SomeFlag(rows, props, user, name, when, true) && !SomeFlag(rows, props, user, name, when, false)
  {
    var groups := ActiveGroups(rows, user, when);
    forall granted: bool
      ensures granted in Flags(groups, props, name) <==> SomeFlag(rows, props, user, name, when, granted)
    {
      FlagsMeaning(groups, props, name, granted);
      forall m | m in rows
        ensures Conflict(m.activeDuring, Moment(when)) <==> m.activeDuring.Has(when)
      {
        ActiveNow(m, when);
      }
      if SomeFlag(rows, props, user, name, when, granted) {
        var m :| m in rows && m.user == user && m.activeDuring.Has(when)
          && Grant(props, m.group, name) == Some(granted);
        assert m.group in groups;
      }
    }
  }

  lemma {:induction false} GrantMeaning(props: seq<Property>, group: nat, name: string)
    ensures Grant(props, group, name) == None <==> forall p :: p in props ==> !(p.group == group && p.name == name)
    ensures Grant(props, group, name).Some? ==> Property(group, name, Grant(props, group, name).value) in props
  {
    if props == [] {
    } else {
      GrantMeaning(props[..|props| - 1], group, name);
      assert props == props[..|props| - 1] + [props[|props| - 1]];
    }
  }

  // ----- do they agree? -----

  /** A group has a row that denies the name, but a later row of the group grants it. */
  ghost predicate Overridden(props: seq<Property>, name: string) {
    exists p :: p in props && p.name == name && !p.granted && Grant(props, p.group, name) == Some(true)
  }

  ghost predicate Agree(rows: Rows, props: seq<Property>, user: nat, name: string, when: Instant) {
    HasProperty(rows, props, user, name, when) <==> Evaluated(user, name, false) in Evaluate(rows, props, when)
  }

  lemma {:induction false} RowsAndFlags(rows: Rows, props: seq<Property>, user: nat, name: string, when: Instant)
    requires !Overridden(props, name)
    ensures SomeFlag(rows, props, user, name, when, false) <==> SomeRow(rows, props, user, name, when, false)
    ensures SomeFlag(rows, props, user, name, when, true) ==> SomeRow(rows, props, user, name, when, true)
    ensures SomeRow(rows, props, user, name, when, true) ==>
            SomeFlag(rows, props, user, name, when, true) || SomeFlag(rows, props, user, name, when, false)
  {
    forall m | m in rows && m.user == user && m.activeDuring.Has(when) && Grant(props, m.group, name).Some?
      ensures SomeRow(rows, props, user, name, when, Grant(props, m.group, name).value)
    {
      GrantMeaning(props, m.group, name);
      assert Joins(m, Property(m.group, name, Grant(props, m.group, name).value), user, name, when);
    }
    forall m, p | m in rows && p in props && Joins(m, p, user, name, when)
      ensures SomeFlag(rows, props, user, name, when, true) || SomeFlag(rows, props, user, name, when, false)
      ensures !p.granted ==> SomeFlag(rows, props, user, name, when, false)
    {
      GrantMeaning(props, m.group, name);
    }
  }

  /**
   Program and database agree on a property for all users, memberships and times exactly when no group
   overrides a denying row of it by a granting one; nothing in the schema excludes two such rows.
   */
  lemma {:induction false} AgreeIff(props: seq<Property>, name: string)
    ensures (forall rows: Rows, user: nat, when: Instant :: Agree(rows, props, user, name, when))
            <==> !Overridden(props, name)
  {
    if Overridden(props, name) {
      var p :| p in props && p.name == name && !p.granted && Grant(props, p.group, name) == Some(true);
      var m := Membership(0, 0, p.group, UNBOUNDED);
      assert m in [m] && Joins(m, p, 0, name, 0.0);
      assert SomeRow([m], props, 0, name, 0.0, false);
      EvaluateMeaning([m], props, 0, name, 0.0);
      HasPropertyMeaning([m], props, 0, name, 0.0);
      assert SomeFlag([m], props, 0, name, 0.0, true);
      assert !Agree([m], props, 0, name, 0.0);
    } else {
      forall rows: Rows, user: nat, when: Instant
        ensures Agree(rows, props, user, name, when)
      {
        EvaluateMeaning(rows, props, user, name, when);
        HasPropertyMeaning(rows, props, user, name, when);
        RowsAndFlags(rows, props, user, name, when);
      }
    }
  }

  /** A group with a denying and then a granting row: the program says yes, the database no. */
  lemma {:induction false} Disagree(user: nat, group: nat, name: string, when: Instant)
    ensures
      var props := [Property(group, name, false), Property(group, name, true)];
      var rows := [Membership(0, user, group, UNBOUNDED)];
      && HasProperty(rows, props, user, name, when) && Evaluated(user, name, false) !in Evaluate(rows, props, when)
      && Evaluated(user, name, true) in Evaluate(rows, props, when)
  {
    var props := [Property(group, name, false), Property(group, name, true)];
    var m := Membership(0, user, group, UNBOUNDED);
    assert m in [m] && props[0] in props && props[1] in props;
    assert Joins(m, props[0], user, name, when) && Joins(m, props[1], user, name, when);
    assert SomeRow([m], props, user, name, when, false) && SomeRow([m], props, user, name, when, true);
    EvaluateMeaning([m], props, user, name, when);
    HasPropertyMeaning([m], props, user, name, when);
    assert Grant(props, group, name) == Some(true);
    assert SomeFlag([m], props, user, name, when, true);
  }
}
