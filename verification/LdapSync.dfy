/**
 The LDAP exporter: records and their differences (`ldap_sync/record_diff.py`,
 `ldap_sync/concepts/`), and what the actions do to a directory (`ldap_sync/execution.py`).

 A directory holds only nonempty attributes.  Replacing an attribute by no values deletes it
 (section 4.6 of RFC 4511).  The password policy overlay clears `pwdAccountLockedTime` when a
 password is changed, unless the same modification sets it.
 */
module LdapSync {
  import opened Wrappers

  /** Attribute names: those the exporter synchronises, and all others. */
  datatype Attr =
    | ObjectClass | Mail | Sn | Cn | LoginShell | Gecos | UserPassword | HomeDirectory | GidNumber | UidNumber | Uid
    | PwdAccountLockedTime | ShadowExpire | Member | Other(name: string)

  type DN = string

  type Values = seq<string>

  type Attrs = map<Attr, Values>

  /** A subclass of `Record`: users or groups, with its `SYNCED_ATTRIBUTES`. */
  datatype Kind = Kind(isUser: bool, synced: set<Attr>) {
    /** The overlay is known to user records only, and only they carry what it looks at. */
    predicate Sane() {
      (isUser <==> UserPassword in synced) && (isUser <==> PwdAccountLockedTime in synced)
    }
  }

  const USER_RECORD := Kind(true, {ObjectClass, Mail, Sn, Cn, LoginShell, Gecos, UserPassword, HomeDirectory, GidNumber,
                                   UidNumber, Uid, PwdAccountLockedTime, ShadowExpire})

  const GROUP_RECORD := Kind(false, {ObjectClass, Cn, Member})

  /** Users carry all the attributes but `member`; groups carry three, of which they share two with users. */
  lemma RecordClassesSane()
    ensures USER_RECORD.Sane() && GROUP_RECORD.Sane() && USER_RECORD.isUser && !GROUP_RECORD.isUser
    ensures forall k :: k in USER_RECORD.synced <==> k != Member && !k.Other?
    ensures |GROUP_RECORD.synced| == 3 && Member in GROUP_RECORD.synced
    ensures forall k :: k in USER_RECORD.synced && k in GROUP_RECORD.synced <==> k == ObjectClass || k == Cn
  {}

  // ----- records -----

  /** An attribute as given: a list, a single value, or `None`. */
  datatype RawValue = Many(values: Values) | One(value: string) | Absent

  function Canonicalized(v: RawValue): Values {
    match v
    case Many(values) => values
    case One(value) => if value == "" then [] else [value]
    case Absent => []
  }

  datatype Record = Record(kind: Kind, dn: DN, attrs: Attrs) {

    /** What the constructor guarantees: exactly the synced attributes. */
    predicate WellFormed() {
      attrs.Keys == kind.synced
    }

    /** `__eq__`, which does not look at the class. */
    predicate Same(other: Record) {
      dn == other.dn && attrs == other.attrs
    }
  }

  /** The record of the given attributes: others are dropped, missing ones are empty. */
  function MakeRecord(kind: Kind, dn: DN, raw: map<Attr, RawValue>): (r: Record)
    ensures r.WellFormed() && r.kind == kind && r.dn == dn
  {
    Record(kind, dn, map k | k in kind.synced :: if k in raw then Canonicalized(raw[k]) else [])
  }

  method InitRecord(kind: Kind, dn: DN, raw: map<Attr, RawValue>) returns (r: Record)
    ensures r == MakeRecord(kind, dn, raw)
    ensures r.kind == kind && r.dn == dn && r.attrs.Keys == kind.synced
    ensures forall k :: k in kind.synced && k in raw && raw[k].Many? ==> r.attrs[k] == raw[k].values
    ensures forall k :: k in kind.synced && k in raw && raw[k].One? && raw[k].value != "" ==>
              r.attrs[k] == [raw[k].value]
    ensures forall k :: k in kind.synced && (k !in raw || raw[k].Absent? || raw[k] == One("")) ==> r.attrs[k] == []
  {
    var attrs: map<Attr, RawValue> := map k | k in raw && k in kind.synced :: raw[k];
    var todo := kind.synced;
    while todo != {}
      invariant todo <= kind.synced
      invariant attrs.Keys <= kind.synced
      invariant forall k :: k in kind.synced && k !in todo ==> k in attrs
      invariant forall k :: k in attrs ==> attrs[k] == if k in raw then raw[k] else Many([])
      invariant forall k :: k in raw && k in kind.synced ==> k in attrs
      decreases todo
    {
      var key :| key in todo;
      if key !in attrs {
        attrs := attrs[key := Many([])];
      }
      todo := todo - {key};
    }
    r := Record(kind, dn, map k | k in attrs :: Canonicalized(attrs[k]));
    assert r.attrs.Keys == kind.synced;
  }

  // ----- differences -----

  datatype Action =
    | Add(dn: DN, nonempty: Attrs)
    | Modify(dn: DN, modifications: Attrs)
    | Delete(dn: DN)
    | Idle(dn: DN)

  datatype Difference = Act(action: Action) | ValueError | TypeError

  function NonEmpty(attrs: Attrs): Attrs {
    map k | k in attrs && attrs[k] != [] :: attrs[k]
  }

  function DiffAttributes(current: Attrs, desired: Attrs): Attrs {
    map k | k in desired && (k !in current || current[k] != desired[k]) :: desired[k]
  }

  function DiffUserAttributes(current: Attrs, desired: Attrs): Attrs {
    var modifications := DiffAttributes(current, desired);
    var passwordChanged := UserPassword in modifications;
    var lockedTimePresentOrNone := PwdAccountLockedTime !in modifications || modifications[PwdAccountLockedTime] == [];
    if passwordChanged && lockedTimePresentOrNone then modifications - {PwdAccountLockedTime} else modifications
  }

  function DiffRecords(current: Option<Record>, desired: Option<Record>): Difference {
    match (current, desired)
    case (None, None) => ValueError
    case (None, Some(d)) => Act(Add(d.dn, NonEmpty(d.attrs)))
    case (Some(c), None) => Act(Delete(c.dn))
    case (Some(c), Some(d)) =>
      if c.Same(d) then Act(Idle(d.dn))
      else if c.dn != d.dn then TypeError
      else if c.kind.isUser && d.kind.isUser then Act(Modify(d.dn, DiffUserAttributes(c.attrs, d.attrs)))
      else if !c.kind.isUser && !d.kind.isUser then Act(Modify(d.dn, DiffAttributes(c.attrs, d.attrs)))
      else TypeError
  }

  /** When records cannot be compared; equal records are always of one class. */
  lemma {:induction false} DiffRaisesIff(current: Option<Record>, desired: Option<Record>)
    requires current.Some? ==> current.value.WellFormed() && current.value.kind.Sane()
    requires desired.Some? ==> desired.value.WellFormed() && desired.value.kind.Sane()
    ensures DiffRecords(current, desired).ValueError? <==> current.None? && desired.None?
    ensures DiffRecords(current, desired).TypeError? <==>
            current.Some? && desired.Some?
            && (current.value.dn != desired.value.dn || current.value.kind.isUser != desired.value.kind.isUser)
  {
    if current.Some? && desired.Some? && current.value.attrs == desired.value.attrs {
      assert UserPassword in current.value.attrs <==> UserPassword in desired.value.attrs;
    }
  }

  /** `{r.dn: r for r in records}`; a later record of the same dn wins. */
  function ByDn(records: seq<Record>): (m: map<DN, Record>)
    ensures forall dn :: dn in m ==> m[dn] in records && m[dn].dn == dn
    ensures forall r :: r in records ==> r.dn in m
  {
    if records == [] then map[] else
      var last := records[|records| - 1];
      assert records == records[..|records| - 1] + [last];
      ByDn(records[..|records| - 1])[last.dn := last]
  }

  /** Of several records of one dn the last is kept. */
  lemma {:induction false} LaterWins(records: seq<Record>, i: nat)
    requires i < |records| && forall j :: i < j < |records| ==> records[j].dn != records[i].dn
    ensures records[i].dn in ByDn(records) && ByDn(records)[records[i].dn] == records[i]
  {
    if i == |records| - 1 {
    } else {
      var init := records[..|records| - 1];
      assert init[i] == records[i] && forall j :: i < j < |init| ==> init[j] == records[j];
      LaterWins(init, i);
    }
  }

  /** A modification contains what has changed and nothing else, but for a lock that a new password clears anyway. */
  lemma {:induction false} DiffMinimal(current: Record, desired: Record, k: Attr)
    requires current.WellFormed() && desired.WellFormed() && current.kind == desired.kind && current.kind.Sane()
    requires current.dn == desired.dn && current.attrs != desired.attrs
    ensures
      var d := DiffRecords(Some(current), Some(desired));
      && d.Act? && d.action.Modify? && d.action.dn == desired.dn
      && (k in d.action.modifications ==> k in desired.attrs && d.action.modifications[k] == desired.attrs[k])
      && (k in d.action.modifications <==>
            && k in desired.attrs && current.attrs[k] != desired.attrs[k]
            && !(k == PwdAccountLockedTime && desired.attrs[k] == []
                 && current.attrs[UserPassword] != desired.attrs[UserPassword]))
  {
  }

  function Get(m: map<DN, Record>, dn: DN): Option<Record> {
    if dn in m then Some(m[dn]) else None
  }

  // ----- the directory -----

  /** Replacing attributes of an entry. */
  function Replaced(entry: Attrs, modifications: Attrs): Attrs {
    var base := if UserPassword in modifications then entry - {PwdAccountLockedTime} else entry;
    NonEmpty(base + modifications)
  }

  /** An entry as read by the exporter. */
  function ReadEntry(kind: Kind, dn: DN, entry: Attrs): (r: Record)
    ensures r.WellFormed()
  {
    Record(kind, dn, Filled(entry, kind.synced))
  }

  /** The values of an attribute, none if it is missing. */
  function Read(entry: Attrs, k: Attr): Values {
    if k in entry then entry[k] else []
  }

  function Filled(entry: Attrs, keys: set<Attr>): Attrs {
    map k | k in keys :: Read(entry, k)
  }

  function ReadAll(kind: Kind, entries: map<DN, Attrs>): map<DN, Record> {
    map dn | dn in entries :: ReadEntry(kind, dn, entries[dn])
  }

  /** An entry holds no attribute without values. */
  ghost predicate Tidy(entry: Attrs) {
    forall k :: k in entry ==> entry[k] != []
  }

  /** Every other entry is as before. */
  ghost predicate OthersSame(before: map<DN, Attrs>, after: map<DN, Attrs>, dn: DN) {
    forall other :: other != dn ==>
      && (other in after <==> other in before)
      && (other in before ==> after[other] == before[other])
  }

  /** What a modified attribute reads as: its new values, and nothing for a lock that a new password clears. */
  function ReadAfter(entry: Attrs, modifications: Attrs, k: Attr): Values {
    if k in modifications then modifications[k]
    else if k == PwdAccountLockedTime && UserPassword in modifications then []
    else Read(entry, k)
  }

  /** What an action means to whoever reads the directory afterwards. */
  ghost predicate Effect(before: map<DN, Attrs>, after: map<DN, Attrs>, action: Action) {
    && OthersSame(before, after, action.dn)
    && (action.Add? ==>
          action.dn in after && after[action.dn] == if action.dn in before then before[action.dn] else action.nonempty)
    && (action.Modify? ==> (action.dn in after <==> action.dn in before))
    && (action.Modify? && action.dn in after ==>
          Tidy(after[action.dn]) &&
          forall k :: Read(after[action.dn], k) == ReadAfter(before[action.dn], action.modifications, k))
    && (action.Delete? ==> action.dn !in after)
    && (action.Idle? ==> after == before)
  }

  class Directory {
    /** The entries below the base that the search returns. */
    var entries: map<DN, Attrs>

    /** `execute_real`; failing operations are only logged. */
    method Execute(action: Action)
      modifies this
      ensures Effect(old(entries), entries, action)
    {
      match action
      case Add(dn, nonempty) =>
        if dn !in entries {
          entries := entries[dn := nonempty];
        }
      case Modify(dn, modifications) =>
        if dn in entries {
          ReplacedReadsAll(entries[dn], modifications);
          entries := entries[dn := Replaced(entries[dn], modifications)];
        }
      case Delete(dn) =>
        entries := entries - {dn};
      case Idle(_) =>
    }

    /**
     One run of the exporter for records of one kind: read, diff, execute.  The actions are executed
     in any order.
     */
    method Sync(kind: Kind, desired: seq<Record>) returns (idle: bool)
      requires kind.Sane() && forall r :: r in desired ==> r.WellFormed() && r.kind == kind
      modifies this
      ensures entries == Synchronized(kind, old(entries), ByDn(desired))
      ensures idle <==> ReadAll(kind, old(entries)) == ByDn(desired)
    {
      ghost var before := entries;
      var current, wanted := ReadAll(kind, entries), ByDn(desired);
      var todo := current.Keys + wanted.Keys;
      idle := true;
      PartialEnds(kind, before, wanted);
      while todo != {}
        invariant todo <= current.Keys + wanted.Keys
        invariant entries == Partial(kind, before, wanted, todo)
        invariant idle
                  <==> forall dn :: dn in (current.Keys + wanted.Keys) - todo ==> Get(current, dn) == Get(wanted, dn)
        decreases todo
      {
        var dn :| dn in todo;
        var untouched := SyncOne(kind, before, current, wanted, todo, dn);
        idle := idle && untouched;
        todo := todo - {dn};
      }
      SameMaps(current, wanted);
    }

    /** Diff and execute for one dn. */
    method SyncOne(kind: Kind, ghost before: map<DN, Attrs>, current: map<DN, Record>, wanted: map<DN, Record>,
                   ghost todo: set<DN>, dn: DN) returns (idle: bool)
      requires Wanted(kind, wanted) && current == ReadAll(kind, before)
      requires dn in todo && (dn in before || dn in wanted) && entries == Partial(kind, before, wanted, todo)
      modifies this
      ensures entries == Partial(kind, before, wanted, todo - {dn})
      ensures idle <==> Get(current, dn) == Get(wanted, dn)
    {
      var d := DiffRecords(Get(current, dn), Get(wanted, dn));
      DiffStep(kind, before, entries, wanted, dn);
      PartialStep(kind, before, wanted, todo, dn);
      ghost var now := entries;
      Execute(d.action);
      EffectIsExecuted(now, entries, d.action);
      idle := d.action.Idle?;
    }
  }

  /** The directory while the entries in todo have not been treated. */
  ghost function Partial(kind: Kind, before: map<DN, Attrs>, wanted: map<DN, Record>, todo: set<DN>): map<DN, Attrs> {
    map dn | dn in before.Keys + wanted.Keys && (if dn in todo then dn in before else dn in wanted) ::
      if dn in todo then before[dn] else EntryAfter(kind, before, wanted[dn])
  }

  lemma PartialStep(kind: Kind, before: map<DN, Attrs>, wanted: map<DN, Record>, todo: set<DN>, dn: DN)
    requires dn in todo && (dn in before || dn in wanted)
    ensures
      var now := Partial(kind, before, wanted, todo);
      Partial(kind, before, wanted, todo - {dn}) ==
      (if dn in wanted then now[dn := EntryAfter(kind, before, wanted[dn])] else now - {dn})
  {}

  lemma PartialEnds(kind: Kind, before: map<DN, Attrs>, wanted: map<DN, Record>)
    ensures Partial(kind, before, wanted, before.Keys + wanted.Keys) == before
    ensures Partial(kind, before, wanted, {}) == Synchronized(kind, before, wanted)
  {}

  lemma SameMaps(a: map<DN, Record>, b: map<DN, Record>)
    ensures a == b <==> forall dn :: dn in a.Keys + b.Keys ==> Get(a, dn) == Get(b, dn)
  {
    if forall dn :: dn in a.Keys + b.Keys ==> Get(a, dn) == Get(b, dn) {
      forall dn
        ensures dn in a <==> dn in b
        ensures dn in a ==> a[dn] == b[dn]
      {
        assert dn in a.Keys + b.Keys ==> Get(a, dn) == Get(b, dn);
      }
    }
  }

  function Executed(entries: map<DN, Attrs>, action: Action): map<DN, Attrs> {
    match action
    case Add(dn, nonempty) => if dn in entries then entries else entries[dn := nonempty]
    case Modify(dn, modifications) =>
      if dn in entries then entries[dn := Replaced(entries[dn], modifications)] else entries
    case Delete(dn) => entries - {dn}
    case Idle(_) => entries
  }

  lemma ReplacedReads(entry: Attrs, modifications: Attrs, k: Attr)
    ensures Read(Replaced(entry, modifications), k) == ReadAfter(entry, modifications, k)
  {}

  lemma ReplacedReadsAll(entry: Attrs, modifications: Attrs)
    ensures Tidy(Replaced(entry, modifications))
    ensures forall k :: Read(Replaced(entry, modifications), k) == ReadAfter(entry, modifications, k)
  {}

  /** Entries without empty attributes are determined by what they read as. */
  lemma {:induction false} ReadsDetermine(a: Attrs, b: Attrs)
    requires Tidy(a) && Tidy(b) && forall k :: Read(a, k) == Read(b, k)
    ensures a == b
  {
    forall k
      ensures k in a <==> k in b
      ensures k in a ==> a[k] == b[k]
    {
      assert Read(a, k) == Read(b, k);
    }
  }

  /** The effect of an action leaves no choice. */
  lemma {:induction false} EffectIsExecuted(before: map<DN, Attrs>, after: map<DN, Attrs>, action: Action)
    requires Effect(before, after, action)
    ensures after == Executed(before, action)
  {
    if action.Modify? && action.dn in before {
      ReplacedReadsAll(before[action.dn], action.modifications);
      ReadsDetermine(after[action.dn], Replaced(before[action.dn], action.modifications));
    }
    var result := Executed(before, action);
    forall dn
      ensures dn in after <==> dn in result
      ensures dn in after ==> after[dn] == result[dn]
    {
    }
  }

  /** What becomes of an existing entry. */
  function Modified(user: bool, entry: Attrs, desired: Attrs): Attrs {
    var current := Filled(entry, desired.Keys);
    if current == desired then entry
    else Replaced(entry, if user then DiffUserAttributes(current, desired) else DiffAttributes(current, desired))
  }

  /** What becomes of the entry of a desired record. */
  function EntryAfter(kind: Kind, entries: map<DN, Attrs>, desired: Record): Attrs {
    if desired.dn in entries then Modified(kind.isUser, entries[desired.dn], desired.attrs) else NonEmpty(desired.attrs)
  }

  function Synchronized(kind: Kind, entries: map<DN, Attrs>, desired: map<DN, Record>): map<DN, Attrs> {
    map dn | dn in desired :: EntryAfter(kind, entries, desired[dn])
  }

  /** Diffing and executing for one dn, whatever has been done to the others. */
  lemma {:induction false} DiffStep(kind: Kind, before: map<DN, Attrs>, now: map<DN, Attrs>, wanted: map<DN, Record>,
                                    dn: DN)
    requires Wanted(kind, wanted) && (dn in before || dn in wanted)
    requires (dn in now <==> dn in before) && (dn in before ==> now[dn] == before[dn])
    ensures
      var d := DiffRecords(Get(ReadAll(kind, before), dn), Get(wanted, dn));
      && d.Act?
      && Executed(now, d.action)
        == (if dn in wanted then now[dn := EntryAfter(kind, before, wanted[dn])] else now - {dn})
      && (d.action.Idle? <==> Get(ReadAll(kind, before), dn) == Get(wanted, dn))
  {
    if dn in before && dn in wanted {
      var c, w := ReadEntry(kind, dn, before[dn]), wanted[dn];
      if c.attrs == w.attrs {
        assert c == w && now[dn := before[dn]] == now;
      }
    }
  }

  /** A set of desired records of one kind, keyed by dn. */
  ghost predicate Wanted(kind: Kind, desired: map<DN, Record>) {
    kind.Sane() && forall dn :: dn in desired ==>
      desired[dn].WellFormed() && desired[dn].kind == kind && desired[dn].dn == dn
  }

  // ----- convergence -----

  /** The record changes the password of a locked entry and keeps the lock. */
  predicate KeepsLock(entry: Attrs, desired: Attrs) {
    && UserPassword in desired && Read(entry, UserPassword) != desired[UserPassword]
    && PwdAccountLockedTime in desired && Read(entry, PwdAccountLockedTime) == desired[PwdAccountLockedTime] != []
  }

  predicate FitsOverlay(user: bool, desired: Attrs) {
    (user <==> UserPassword in desired) && (user <==> PwdAccountLockedTime in desired)
  }

  /** One modification makes every attribute read as desired, except that a kept lock is lost. */
  lemma {:induction false} ModifiedReads(user: bool, entry: Attrs, desired: Attrs, k: Attr)
    requires FitsOverlay(user, desired) && k in desired
    ensures Read(Modified(user, entry, desired), k) ==
            if k == PwdAccountLockedTime && KeepsLock(entry, desired) then [] else desired[k]
  {
    var current := Filled(entry, desired.Keys);
    assert current[k] == Read(entry, k);
    if current == desired {
      assert UserPassword in desired ==> current[UserPassword] == desired[UserPassword];
    } else {
      ReplacedReads(entry, if user then DiffUserAttributes(current, desired) else DiffAttributes(current, desired), k);
    }
  }

  /** So after one modification an entry reads as desired exactly when it did not keep its lock. */
  lemma {:induction false} OneModification(user: bool, entry: Attrs, desired: Attrs)
    requires FitsOverlay(user, desired)
    ensures Filled(Modified(user, entry, desired), desired.Keys) == desired <==> !KeepsLock(entry, desired)
    ensures !KeepsLock(Modified(user, entry, desired), desired)
  {
    var read := Filled(Modified(user, entry, desired), desired.Keys);
    forall k | k in desired
      ensures read[k] == if k == PwdAccountLockedTime && KeepsLock(entry, desired) then [] else desired[k]
    {
      ModifiedReads(user, entry, desired, k);
    }
  }

  /** Attributes the exporter does not know are left alone. */
  lemma {:induction false} OtherAttributesUntouched(user: bool, entry: Attrs, desired: Attrs, k: Attr)
    requires FitsOverlay(user, desired) && k !in desired
    ensures Read(Modified(user, entry, desired), k) == Read(entry, k)
  {
    var current := Filled(entry, desired.Keys);
    if current != desired {
      ReplacedReads(entry, if user then DiffUserAttributes(current, desired) else DiffAttributes(current, desired), k);
    }
  }

  lemma {:induction false} NewEntry(desired: Attrs)
    ensures Filled(NonEmpty(desired), desired.Keys) == desired
  {
    forall k | k in desired
      ensures Read(NonEmpty(desired), k) == desired[k]
    {
    }
  }

  lemma {:induction false} OneRoundEntry(kind: Kind, entries: map<DN, Attrs>, desired: Record)
    requires kind.Sane() && desired.WellFormed() && desired.kind == kind
    ensures ReadEntry(kind, desired.dn, EntryAfter(kind, entries, desired)) == desired
            <==> !(desired.dn in entries && KeepsLock(entries[desired.dn], desired.attrs))
    ensures !KeepsLock(EntryAfter(kind, entries, desired), desired.attrs)
  {
    NewEntry(desired.attrs);
    var keys := desired.attrs.Keys;
    if desired.dn in entries {
      OneModification(kind.isUser, entries[desired.dn], desired.attrs);
    } else if UserPassword in keys {
      assert Filled(NonEmpty(desired.attrs), keys)[UserPassword] == Read(NonEmpty(desired.attrs), UserPassword);
    }
  }

  /** One round suffices exactly when no user keeps a lock while the password changes. */
  lemma {:induction false} OneRoundSufficesIff(kind: Kind, entries: map<DN, Attrs>, desired: map<DN, Record>)
    requires Wanted(kind, desired)
    ensures ReadAll(kind, Synchronized(kind, entries, desired)) == desired <==>
            forall dn :: dn in desired && dn in entries ==> !KeepsLock(entries[dn], desired[dn].attrs)
  {
    var read := ReadAll(kind, Synchronized(kind, entries, desired));
    forall dn | dn in desired
      ensures read[dn] == desired[dn] <==> !(dn in entries && KeepsLock(entries[dn], desired[dn].attrs))
    {
      OneRoundEntry(kind, entries, desired[dn]);
    }
    assert read == desired <==> forall dn :: dn in desired ==> read[dn] == desired[dn];
  }

  /** From any directory, two rounds make it read as desired. */
  lemma {:induction false} TwoRoundsConverge(kind: Kind, entries: map<DN, Attrs>, desired: map<DN, Record>)
    requires Wanted(kind, desired)
    ensures ReadAll(kind, Synchronized(kind, Synchronized(kind, entries, desired), desired)) == desired
  {
    var once := Synchronized(kind, entries, desired);
    forall dn | dn in desired && dn in once
      ensures !KeepsLock(once[dn], desired[dn].attrs)
    {
      OneRoundEntry(kind, entries, desired[dn]);
    }
    OneRoundSufficesIff(kind, once, desired);
  }

  /** Once the directory reads as desired, a round does nothing at all. */
  lemma {:induction false} ConvergedIsStable(kind: Kind, entries: map<DN, Attrs>, desired: map<DN, Record>)
    requires Wanted(kind, desired) && ReadAll(kind, entries) == desired
    ensures Synchronized(kind, entries, desired) == entries
    ensures forall dn :: dn in desired ==>
              DiffRecords(Get(ReadAll(kind, entries), dn), Get(desired, dn)) == Act(Idle(dn))
  {
    assert desired.Keys == entries.Keys;
    forall dn | dn in desired
      ensures EntryAfter(kind, entries, desired[dn]) == entries[dn]
    {
      assert ReadAll(kind, entries)[dn] == desired[dn];
    }
  }

  /** The attributes of a user record with a password and a lock. */
  function LockedRecord(password: string, lock: string): Attrs {
    map k | k in USER_RECORD.synced ::
      if k == UserPassword then [password] else if k == PwdAccountLockedTime then [lock] else []
  }

  /** A locked user whose record keeps the lock and changes the password is unlocked after one round. */
  lemma {:induction false} LockLost(dn: DN, before: string, after: string, lock: string)
    requires before != after
    ensures
      var entry := NonEmpty(LockedRecord(before, lock));
      var desired := Record(USER_RECORD, dn, LockedRecord(after, lock));
      var once := Synchronized(USER_RECORD, map[dn := entry], map[dn := desired]);
      && Wanted(USER_RECORD, map[dn := desired])
      && ReadAll(USER_RECORD, once) != map[dn := desired] && dn in once && Read(once[dn], PwdAccountLockedTime) == []
  {
    var entry := NonEmpty(LockedRecord(before, lock));
    var desired := Record(USER_RECORD, dn, LockedRecord(after, lock));
    var once := Synchronized(USER_RECORD, map[dn := entry], map[dn := desired]);
    RecordClassesSane();
    assert desired.attrs.Keys == USER_RECORD.synced && Wanted(USER_RECORD, map[dn := desired]);
    assert KeepsLock(entry, desired.attrs);
    OneRoundSufficesIff(USER_RECORD, map[dn := entry], map[dn := desired]);
    assert once[dn] == EntryAfter(USER_RECORD, map[dn := entry], desired) == Modified(true, entry, desired.attrs);
    ModifiedReads(true, entry, desired.attrs, PwdAccountLockedTime);
  }
}
