/**
 Users, unix accounts and tombstones of `pycroft/model/unix_account.py`: every statement with its
 triggers and constraints, and the transition system it refines.
 */
module Tombstones {
  import opened Wrappers

  /** The generated column `login_hash`; digests of different logins are taken to differ. */
  datatype Hash = Sha512(login: string)

  datatype User = User(login: string, account: Option<nat>) {
    function LoginHash(): Hash {
      Sha512(login)
    }
  }

  datatype Tombstone = Tombstone(uid: Option<int>, hash: Option<Hash>)

  type Stones = set<Tombstone>

  datatype State = State(users: map<nat, User>, accounts: map<nat, int>, stones: Stones)

  datatype Failure = UniqueViolation | ForeignKeyViolation | CheckViolation | AssertFailure | Inconsistent

  datatype Result = Ok | Failed(failure: Failure)

  // ----- consistency -----

  predicate HasUid(stones: Stones, uid: int) {
    exists t :: t in stones && t.uid == Some(uid)
  }

  predicate HasHash(stones: Stones, h: Hash) {
    exists t :: t in stones && t.hash == Some(h)
  }

  /** The table constraints of `unix_tombstone`. */
  ghost predicate StonesOk(stones: Stones) {
    && (forall t :: t in stones ==> t.uid.Some? || t.hash.Some?)
    && (forall t, u :: t in stones && u in stones && t.uid.Some? && t.uid == u.uid ==> t == u)
    && (forall t, u :: t in stones && u in stones && t.hash.Some? && t.hash == u.hash ==> t == u)
  }

  /** Two users differ in the unique columns; null accounts do not clash. */
  predicate Distinct(u: User, v: User) {
    u.login != v.login && (u.account.Some? ==> u.account != v.account)
  }

  /** The unique columns of the other two tables. */
  ghost predicate KeysOk(users: map<nat, User>, accounts: map<nat, int>) {
    && (forall i, j :: i in users && j in users && i != j ==> Distinct(users[i], users[j]))
    && (forall a, b :: a in accounts && b in accounts && a != b ==> accounts[a] != accounts[b])
  }

  /** The user's login has a tombstone, and shares it with the account if there is one. */
  predicate UserCovered(u: User, accounts: map<nat, int>, stones: Stones) {
    && HasHash(stones, u.LoginHash())
    && (u.account.Some? ==>
          u.account.value in accounts && Tombstone(Some(accounts[u.account.value]), Some(u.LoginHash())) in stones)
  }

  ghost predicate Covered(s: State) {
    && (forall i :: i in s.users ==> UserCovered(s.users[i], s.accounts, s.stones))
    && (forall a :: a in s.accounts ==> HasUid(s.stones, s.accounts[a]))
  }

  ghost predicate Inv(s: State) {
    StonesOk(s.stones) && KeysOk(s.users, s.accounts) && Covered(s)
  }

  // ----- the statements, declaratively -----

  datatype Statement =
    | InsertAccount(id: nat, uid: int)
    | InsertUser(id: nat, login: string, account: Option<nat>)
    | SetAccount(id: nat, account: Option<nat>)
    | DeleteUser(id: nat)
    | DeleteAccount(id: nat)

  /** No user holds the tombstone of the uid. */
  ghost predicate Vacant(s: State, uid: int) {
    forall i :: i in s.users ==> Tombstone(Some(uid), Some(s.users[i].LoginHash())) !in s.stones
  }

  /** Coupling applies to a shared tombstone, or to two halves. */
  ghost predicate Couplable(stones: Stones, uid: int, h: Hash) {
    || Tombstone(Some(uid), Some(h)) in stones
    || (Tombstone(Some(uid), None) in stones && Tombstone(None, Some(h)) in stones)
  }

  /** When a statement goes through. */
  ghost predicate Succeeds(s: State, stmt: Statement) {
    match stmt
    case InsertAccount(id, uid) => id !in s.accounts && uid !in s.accounts.Values
    case InsertUser(id, login, None) => id !in s.users && !HasHash(s.stones, Sha512(login))
    case InsertUser(id, login, Some(a)) =>
      && id !in s.users && a in s.accounts && Vacant(s, s.accounts[a])
      && (HasHash(s.stones, Sha512(login)) ==> Tombstone(Some(s.accounts[a]), Some(Sha512(login))) in s.stones)
    case SetAccount(id, account) =>
      id in s.users && account.Some? && account != s.users[id].account ==>
        var h := s.users[id].LoginHash();
        account.value in s.accounts && Couplable(s.stones, s.accounts[account.value], h)
    case _ => true
  }

  /** The tombstone of the uid gets the hash. */
  function WithHash(stones: Stones, uid: int, h: Hash): Stones {
    if HasUid(stones, uid) then (set t | t in stones && t.uid != Some(uid)) + {Tombstone(Some(uid), Some(h))}
    else stones
  }

  function DropHash(stones: Stones, h: Hash): Stones {
    set t | t in stones && t.hash != Some(h)
  }

  /** The state after a statement that goes through. */
  function After(s: State, stmt: Statement): State {
    match stmt
    case InsertAccount(id, uid) =>
      State(s.users, s.accounts[id := uid],
            if HasUid(s.stones, uid) then s.stones else s.stones + {Tombstone(Some(uid), None)})
    case InsertUser(id, login, account) =>
      State(s.users[id := User(login, account)], s.accounts,
            if account.Some? && account.value in s.accounts
            then WithHash(s.stones, s.accounts[account.value], Sha512(login))
            else s.stones + {Tombstone(None, Some(Sha512(login)))})
    case SetAccount(id, account) =>
      if id !in s.users then s else
        var u := s.users[id];
        State(s.users[id := u.(account := account)], s.accounts,
              if account.Some? && account != u.account && account.value in s.accounts
              then WithHash(DropUnpaired(s.stones, u.LoginHash()), s.accounts[account.value], u.LoginHash())
              else s.stones)
    case DeleteUser(id) => State(s.users - {id}, s.accounts, s.stones)
    case DeleteAccount(id) => State(Decoupled(s.users, id), s.accounts - {id}, s.stones)
  }

  /** A tombstone of the hash alone gives way to the one of the account. */
  function DropUnpaired(stones: Stones, h: Hash): Stones {
    stones - {Tombstone(None, Some(h))}
  }

  /** `ON DELETE SET NULL` of `user.unix_account_id`. */
  function Decoupled(users: map<nat, User>, account: nat): map<nat, User> {
    map i | i in users :: if users[i].account == Some(account) then users[i].(account := None) else users[i]
  }

  // ----- every statement keeps the tables consistent -----

  lemma WithHashOk(stones: Stones, uid: int, h: Hash)
    requires StonesOk(stones) && HasUid(stones, uid)
    requires HasHash(stones, h) ==> Tombstone(Some(uid), Some(h)) in stones
    ensures StonesOk(WithHash(stones, uid, h)) && Tombstone(Some(uid), Some(h)) in WithHash(stones, uid, h)
    ensures forall v :: HasUid(stones, v) <==> HasUid(WithHash(stones, uid, h), v)
    ensures forall t :: t in stones && t.uid != Some(uid) ==> t in WithHash(stones, uid, h)
  {
    var after := WithHash(stones, uid, h);
    var t :| t in stones && t.uid == Some(uid);
    assert Tombstone(Some(uid), Some(h)) in after;
    forall v
      ensures HasUid(stones, v) <==> HasUid(after, v)
    {
      if HasUid(stones, v) && v != uid {
        var t :| t in stones && t.uid == Some(v);
        assert t in after;
      }
    }
  }

  /** Tombstones are only ever added to, except for the hash of the tombstone of `uid`. */
  lemma Kept(before: Stones, after: Stones)
    requires forall t :: t in before ==> t in after
    ensures forall v :: HasUid(before, v) ==> HasUid(after, v)
    ensures forall h :: HasHash(before, h) ==> HasHash(after, h)
  {
    forall v | HasUid(before, v)
      ensures HasUid(after, v)
    {
      var t :| t in before && t.uid == Some(v);
      assert t in after;
    }
    forall h | HasHash(before, h)
      ensures HasHash(after, h)
    {
      var t :| t in before && t.hash == Some(h);
      assert t in after;
    }
  }

  lemma InsertAccountKeys(users: map<nat, User>, accounts: map<nat, int>, id: nat, uid: int)
    requires KeysOk(users, accounts) && id !in accounts && uid !in accounts.Values
    ensures KeysOk(users, accounts[id := uid])
  {
    forall a | a in accounts
      ensures accounts[a] != uid
    {
      assert accounts[a] in accounts.Values;
    }
  }

  lemma StaysCovered(u: User, accounts: map<nat, int>, before: Stones, after: Stones, id: nat, uid: int)
    requires UserCovered(u, accounts, before) && before <= after && id !in accounts
    ensures UserCovered(u, accounts[id := uid], after)
  {
    var t :| t in before && t.hash == Some(u.LoginHash());
    assert t in after;
  }

  lemma {:induction false} InsertAccountKeepsInv(s: State, id: nat, uid: int)
    requires Inv(s) && Succeeds(s, InsertAccount(id, uid))
    ensures Inv(After(s, InsertAccount(id, uid)))
  {
    var s' := After(s, InsertAccount(id, uid));
    Kept(s.stones, s'.stones);
    assert HasUid(s'.stones, uid) by {
      assert HasUid(s.stones, uid) || Tombstone(Some(uid), None) in s'.stones;
    }
    InsertAccountKeys(s.users, s.accounts, id, uid);
    forall i | i in s.users
      ensures UserCovered(s.users[i], s'.accounts, s'.stones)
    {
      StaysCovered(s.users[i], s.accounts, s.stones, s'.stones, id, uid);
    }
  }

  /** A login that may be inserted belongs to no user, and the account to none either. */
  lemma {:induction false} InsertableIsFree(s: State, id: nat, login: string, account: Option<nat>, i: nat)
    requires Inv(s) && Succeeds(s, InsertUser(id, login, account)) && i in s.users
    ensures Distinct(s.users[i], User(login, account)) && Distinct(User(login, account), s.users[i])
  {
    assert UserCovered(s.users[i], s.accounts, s.stones);
  }

  lemma {:induction false} InsertUserKeys(s: State, id: nat, login: string, account: Option<nat>)
    requires Inv(s) && Succeeds(s, InsertUser(id, login, account))
    ensures KeysOk(s.users[id := User(login, account)], s.accounts)
  {
    forall i | i in s.users
      ensures Distinct(s.users[i], User(login, account)) && Distinct(User(login, account), s.users[i])
    {
      InsertableIsFree(s, id, login, account, i);
    }
  }

  lemma {:induction false} InsertLoneUserKeepsInv(s: State, id: nat, login: string)
    requires Inv(s) && Succeeds(s, InsertUser(id, login, None))
    ensures Inv(After(s, InsertUser(id, login, None)))
  {
    var s' := After(s, InsertUser(id, login, None));
    InsertUserKeys(s, id, login, None);
    Kept(s.stones, s'.stones);
    assert Tombstone(None, Some(Sha512(login))) in s'.stones;
    forall i | i in s.users
      ensures UserCovered(s.users[i], s.accounts, s'.stones)
    {
      assert UserCovered(s.users[i], s.accounts, s.stones);
    }
  }

  /** A user other than the one whose tombstone is written stays covered. */
  lemma OtherStaysCovered(u: User, accounts: map<nat, int>, before: Stones, after: Stones, uid: int)
    requires UserCovered(u, accounts, before)
    requires Tombstone(Some(uid), Some(u.LoginHash())) !in before
    requires forall t :: t in before && t.hash == Some(u.LoginHash()) && t.uid != Some(uid) ==> t in after
    ensures UserCovered(u, accounts, after)
  {
    var t :| t in before && t.hash == Some(u.LoginHash());
    assert t in after;
  }

  lemma {:induction false} InsertCoupledUserKeepsInv(s: State, id: nat, login: string, a: nat)
    requires Inv(s) && Succeeds(s, InsertUser(id, login, Some(a)))
    ensures Inv(After(s, InsertUser(id, login, Some(a))))
  {
    var s' := After(s, InsertUser(id, login, Some(a)));
    var uid := s.accounts[a];
    InsertUserKeys(s, id, login, Some(a));
    WithHashOk(s.stones, uid, Sha512(login));
    assert HasHash(s'.stones, Sha512(login));
    forall i | i in s.users
      ensures UserCovered(s.users[i], s.accounts, s'.stones)
    {
      OtherStaysCovered(s.users[i], s.accounts, s.stones, s'.stones, uid);
    }
  }

  /** What coupling does to the tombstones. */
  lemma {:induction false} CoupleStones(before: Stones, uid: int, h: Hash, after: Stones)
    requires StonesOk(before) && Couplable(before, uid, h)
    requires after == WithHash(DropUnpaired(before, h), uid, h)
    ensures StonesOk(after) && Tombstone(Some(uid), Some(h)) in after
    ensures forall t :: t in before && t.uid != Some(uid) && t != Tombstone(None, Some(h)) ==> t in after
    ensures forall v :: HasUid(before, v) ==> HasUid(after, v)
  {
    var stones := DropUnpaired(before, h);
    assert Tombstone(Some(uid), Some(h)) in stones || Tombstone(Some(uid), None) in stones;
    assert HasUid(stones, uid);
    WithHashOk(stones, uid, h);
    forall v | HasUid(before, v)
      ensures HasUid(after, v)
    {
      var t :| t in before && t.uid == Some(v);
      assert t in stones;
    }
  }

  lemma {:induction false} CoupleKeys(s: State, id: nat, a: nat)
    requires Inv(s) && id in s.users && a in s.accounts && Couplable(s.stones, s.accounts[a], s.users[id].LoginHash())
    ensures KeysOk(s.users[id := s.users[id].(account := Some(a))], s.accounts)
  {
    var u := s.users[id];
    forall i | i in s.users && i != id
      ensures Distinct(s.users[i], u.(account := Some(a))) && Distinct(u.(account := Some(a)), s.users[i])
    {
      assert UserCovered(s.users[i], s.accounts, s.stones);
      assert Distinct(s.users[i], u) && Distinct(u, s.users[i]);
    }
  }

  /** The other users stay covered when one is coupled. */
  lemma {:induction false} CoupleCovers(s: State, id: nat, a: nat, after: Stones, i: nat)
    requires Inv(s) && id in s.users && a in s.accounts && Couplable(s.stones, s.accounts[a], s.users[id].LoginHash())
    requires after == WithHash(DropUnpaired(s.stones, s.users[id].LoginHash()), s.accounts[a], s.users[id].LoginHash())
    requires i in s.users && i != id
    ensures UserCovered(s.users[i], s.accounts, after)
  {
    CoupleStones(s.stones, s.accounts[a], s.users[id].LoginHash(), after);
    assert UserCovered(s.users[i], s.accounts, s.stones) && Distinct(s.users[i], s.users[id]);
    OtherStaysCovered(s.users[i], s.accounts, s.stones, after, s.accounts[a]);
  }

  lemma {:induction false} CoupledState(s: State, id: nat, a: nat, after: Stones)
    requires Inv(s) && id in s.users && a in s.accounts && Couplable(s.stones, s.accounts[a], s.users[id].LoginHash())
    requires after == WithHash(DropUnpaired(s.stones, s.users[id].LoginHash()), s.accounts[a], s.users[id].LoginHash())
    ensures Covered(State(s.users[id := s.users[id].(account := Some(a))], s.accounts, after))
  {
    CoupleStones(s.stones, s.accounts[a], s.users[id].LoginHash(), after);
    assert HasHash(after, s.users[id].LoginHash());
    forall i | i in s.users && i != id
      ensures UserCovered(s.users[i], s.accounts, after)
    {
      CoupleCovers(s, id, a, after, i);
    }
  }

  lemma {:induction false} CoupleKeepsInv(s: State, id: nat, a: nat)
    requires Inv(s) && Succeeds(s, SetAccount(id, Some(a))) && id in s.users && s.users[id].account != Some(a)
    ensures Inv(After(s, SetAccount(id, Some(a))))
  {
    var s' := After(s, SetAccount(id, Some(a)));
    CoupleKeys(s, id, a);
    CoupleStones(s.stones, s.accounts[a], s.users[id].LoginHash(), s'.stones);
    CoupledState(s, id, a, s'.stones);
  }

  lemma {:induction false} SetNullKeepsInv(s: State, id: nat)
    requires Inv(s)
    ensures Inv(After(s, SetAccount(id, None)))
  {
    if id in s.users {
      var u := s.users[id];
      assert UserCovered(u, s.accounts, s.stones);
      assert forall i :: i in s.users && i != id ==> Distinct(s.users[i], u) && Distinct(u, s.users[i]);
    }
  }

  lemma DecoupledKeys(users: map<nat, User>, accounts: map<nat, int>, a: nat)
    requires KeysOk(users, accounts)
    ensures KeysOk(Decoupled(users, a), accounts - {a})
  {
    var after := Decoupled(users, a);
    forall i, j | i in after && j in after && i != j
      ensures Distinct(after[i], after[j])
    {
      assert Distinct(users[i], users[j]);
    }
  }

  lemma DecoupledCovered(u: User, accounts: map<nat, int>, stones: Stones, a: nat)
    requires UserCovered(u, accounts, stones)
    ensures UserCovered(if u.account == Some(a) then u.(account := None) else u, accounts - {a}, stones)
  {}

  lemma {:induction false} DeleteAccountKeepsInv(s: State, a: nat)
    requires Inv(s)
    ensures Inv(After(s, DeleteAccount(a)))
  {
    var s' := After(s, DeleteAccount(a));
    forall i | i in s'.users
      ensures UserCovered(s'.users[i], s'.accounts, s'.stones)
    {
      DecoupledCovered(s.users[i], s.accounts, s.stones, a);
    }
    DecoupledKeys(s.users, s.accounts, a);
  }

  lemma {:induction false} DeleteUserKeepsInv(s: State, id: nat)
    requires Inv(s)
    ensures Inv(After(s, DeleteUser(id)))
  {}

  /** Consistency is an invariant: no statement that goes through breaks it. */
  lemma {:induction false} StepKeepsInv(s: State, stmt: Statement)
    requires Inv(s) && Succeeds(s, stmt)
    ensures Inv(After(s, stmt))
  {
    match stmt
    case InsertAccount(id, uid) => InsertAccountKeepsInv(s, id, uid);
    case InsertUser(id, login, None) => InsertLoneUserKeepsInv(s, id, login);
    case InsertUser(id, login, Some(a)) => InsertCoupledUserKeepsInv(s, id, login, a);
    case SetAccount(id, None) => SetNullKeepsInv(s, id);
    case SetAccount(id, Some(a)) =>
      if id in s.users && s.users[id].account != Some(a) {
        CoupleKeepsInv(s, id, a);
      } else if id in s.users {
        assert s.users[id := s.users[id].(account := Some(a))] == s.users;
      }
    case DeleteUser(id) => DeleteUserKeepsInv(s, id);
    case DeleteAccount(id) => DeleteAccountKeepsInv(s, id);
  }

  // ----- permanence -----

  /** Nothing a tombstone records is forgotten: no uid, no hash, no pair. */
  ghost predicate Remembers(before: Stones, after: Stones) {
    && (forall v :: HasUid(before, v) ==> HasUid(after, v))
    && (forall h :: HasHash(before, h) ==> HasHash(after, h))
    && (forall v, h :: Tombstone(Some(v), Some(h)) in before ==> Tombstone(Some(v), Some(h)) in after)
  }

  /**
   The one statement that forgets: inserting a user with an account whose tombstone carries another
   hash, left behind by a deleted user.  `v_ua_ts` is not set in that branch, so nothing is refused.
   */
  ghost predicate Overwrites(s: State, stmt: Statement) {
    && stmt.InsertUser? && stmt.account.Some? && stmt.account.value in s.accounts
    && exists h :: h != Sha512(stmt.login) && Tombstone(Some(s.accounts[stmt.account.value]), Some(h)) in s.stones
  }

  lemma {:induction false} WithHashRemembers(before: Stones, after: Stones, uid: int, h: Hash)
    requires StonesOk(before) && HasUid(before, uid) && after == WithHash(before, uid, h)
    requires forall g :: Tombstone(Some(uid), Some(g)) in before ==> g == h
    ensures Remembers(before, after)
  {
    assert Tombstone(Some(uid), Some(h)) in after;
    forall v | HasUid(before, v)
      ensures HasUid(after, v)
    {
      var t :| t in before && t.uid == Some(v);
      assert v != uid ==> t in after;
    }
    forall g | HasHash(before, g)
      ensures HasHash(after, g)
    {
      var t :| t in before && t.hash == Some(g);
      assert t.uid == Some(uid) ==> t == Tombstone(Some(uid), Some(g)) && g == h;
      assert t in after;
    }
  }

  lemma {:induction false} CoupleRemembers(before: Stones, after: Stones, uid: int, h: Hash)
    requires StonesOk(before) && Couplable(before, uid, h)
    requires after == WithHash(DropUnpaired(before, h), uid, h)
    ensures Remembers(before, after)
  {
    CoupleStones(before, uid, h, after);
    forall g | HasHash(before, g)
      ensures HasHash(after, g)
    {
      var t :| t in before && t.hash == Some(g);
      assert g != h ==> t.uid != Some(uid) && t in after;
    }
    forall v, g | Tombstone(Some(v), Some(g)) in before
      ensures Tombstone(Some(v), Some(g)) in after
    {
      assert v == uid ==> g == h;
    }
  }

  lemma {:induction false} TakeoverRemembersIff(before: Stones, uid: int, h: Hash)
    requires StonesOk(before) && HasUid(before, uid)
    ensures Remembers(before, WithHash(before, uid, h))
            <==> forall g :: Tombstone(Some(uid), Some(g)) in before ==> g == h
    ensures forall v :: HasUid(before, v) ==> HasUid(WithHash(before, uid, h), v)
  {
    var after := WithHash(before, uid, h);
    if g :| Tombstone(Some(uid), Some(g)) in before && g != h {
      assert Tombstone(Some(uid), Some(g)) !in after;
    } else {
      WithHashRemembers(before, after, uid, h);
    }
    UidsStay(before, uid, h);
  }

  lemma UidsStay(before: Stones, uid: int, h: Hash)
    requires HasUid(before, uid)
    ensures forall v :: HasUid(before, v) ==> HasUid(WithHash(before, uid, h), v)
  {
    var after := WithHash(before, uid, h);
    assert Tombstone(Some(uid), Some(h)) in after;
    forall v | HasUid(before, v)
      ensures HasUid(after, v)
    {
      var t :| t in before && t.uid == Some(v);
      assert v != uid ==> t in after;
    }
  }

  /** A statement that goes through keeps the memory of the tombstones unless it overwrites. */
  lemma {:induction false} RemembersIff(s: State, stmt: Statement)
    requires Inv(s) && Succeeds(s, stmt)
    ensures Remembers(s.stones, After(s, stmt).stones) <==> !Overwrites(s, stmt)
    ensures forall v :: HasUid(s.stones, v) ==> HasUid(After(s, stmt).stones, v)
  {
    var after := After(s, stmt).stones;
    match stmt
    case InsertAccount(id, uid) => Kept(s.stones, after);
    case InsertUser(id, login, None) => Kept(s.stones, after);
    case InsertUser(id, login, Some(a)) => TakeoverRemembersIff(s.stones, s.accounts[a], Sha512(login));
    case SetAccount(id, account) =>
      if id in s.users && account.Some? && account != s.users[id].account {
        CoupleRemembers(s.stones, after, s.accounts[account.value], s.users[id].LoginHash());
      }
    case DeleteUser(id) =>
    case DeleteAccount(id) =>
  }

  // ----- runs -----

  /** A statement that fails is rolled back. */
  ghost function Step(s: State, stmt: Statement): State {
    if Succeeds(s, stmt) then After(s, stmt) else s
  }

  ghost function Run(s: State, stmts: seq<Statement>): State
    decreases |stmts|
  {
    if stmts == [] then s
    else Run(Step(s, stmts[0]), stmts[1..])
  }

  /** Users are inserted alone or with an account whose tombstone has no hash yet. */
  ghost predicate Careful(s: State, stmt: Statement) {
    stmt.InsertUser? && stmt.account.Some? && stmt.account.value in s.accounts ==>
      Tombstone(Some(s.accounts[stmt.account.value]), None) in s.stones
  }

  ghost predicate CarefulRun(s: State, stmts: seq<Statement>)
    decreases |stmts|
  {
    stmts != [] ==> Careful(s, stmts[0]) && CarefulRun(Step(s, stmts[0]), stmts[1..])
  }

  lemma CarefulIsSafe(s: State, stmt: Statement)
    requires Inv(s) && Careful(s, stmt)
    ensures !Overwrites(s, stmt)
  {}

  /** Every state reached from a consistent one is consistent. */
  lemma {:induction false} RunKeepsInv(s: State, stmts: seq<Statement>)
    requires Inv(s)
    ensures Inv(Run(s, stmts))
    decreases |stmts|
  {
    if stmts == [] {
    } else {
      if Succeeds(s, stmts[0]) {
        StepKeepsInv(s, stmts[0]);
      }
      RunKeepsInv(Step(s, stmts[0]), stmts[1..]);
    }
  }

  /** Along careful runs nothing is ever forgotten. */
  lemma {:induction false} RunRemembers(s: State, stmts: seq<Statement>)
    requires Inv(s) && CarefulRun(s, stmts)
    ensures Remembers(s.stones, Run(s, stmts).stones)
    decreases |stmts|
  {
    if stmts == [] {
    } else {
      if Succeeds(s, stmts[0]) {
        StepKeepsInv(s, stmts[0]);
        RemembersIff(s, stmts[0]);
        CarefulIsSafe(s, stmts[0]);
      }
      RunRemembers(Step(s, stmts[0]), stmts[1..]);
    }
  }

  /** No run leaves a tombstone with neither a uid nor a login. */
  lemma {:induction false} EveryStoneTells(s: State, stmts: seq<Statement>, t: Tombstone)
    requires Inv(s) && t in Run(s, stmts).stones
    ensures t != Tombstone(None, None)
  {
    RunKeepsInv(s, stmts);
  }

  lemma {:induction false} StepKeepsUid(s: State, stmt: Statement, uid: int)
    requires Inv(s) && HasUid(s.stones, uid)
    ensures HasUid(Step(s, stmt).stones, uid)
  {
    var t :| t in s.stones && t.uid == Some(uid);
    match stmt
    case InsertAccount(_, _) => assert t in After(s, stmt).stones;
    case InsertUser(_, login, account) =>
      if account.Some? && account.value in s.accounts {
        UidKept(s.stones, s.accounts[account.value], Sha512(login), uid);
      } else {
        assert t in After(s, stmt).stones;
      }
    case SetAccount(id, account) =>
      if id in s.users && account.Some? && account.value in s.accounts {
        var h := s.users[id].LoginHash();
        assert t in DropUnpaired(s.stones, h);
        UidKept(DropUnpaired(s.stones, h), s.accounts[account.value], h, uid);
      }
    case DeleteUser(_) =>
    case DeleteAccount(_) =>
  }

  lemma UidKept(stones: Stones, v: int, h: Hash, uid: int)
    requires HasUid(stones, uid)
    ensures HasUid(WithHash(stones, v, h), uid)
  {
    var t :| t in stones && t.uid == Some(uid);
    if uid != v {
      assert t in WithHash(stones, v, h);
    } else {
      assert Tombstone(Some(v), Some(h)) in WithHash(stones, v, h);
    }
  }

  /** A uid once in use keeps a tombstone, along every run. */
  lemma {:induction false} UidNeverForgotten(s: State, stmts: seq<Statement>, uid: int)
    requires Inv(s) && HasUid(s.stones, uid)
    ensures HasUid(Run(s, stmts).stones, uid)
    decreases |stmts|
  {
    if stmts == [] {
    } else {
      StepKeepsUid(s, stmts[0], uid);
      if Succeeds(s, stmts[0]) {
        StepKeepsInv(s, stmts[0]);
      }
      UidNeverForgotten(Step(s, stmts[0]), stmts[1..], uid);
    }
  }

  /** A login once used, even by a user long deleted, is never inserted again. */
  lemma {:induction false} LoginNeverReused(s: State, stmts: seq<Statement>, id: nat, login: string,
                                            account: Option<nat>)
    requires Inv(s) && CarefulRun(s, stmts) && HasHash(s.stones, Sha512(login))
    requires Careful(Run(s, stmts), InsertUser(id, login, account))
    ensures !Succeeds(Run(s, stmts), InsertUser(id, login, account))
  {
    RunKeepsInv(s, stmts);
    RunRemembers(s, stmts);
    var s' := Run(s, stmts);
    assert HasHash(s'.stones, Sha512(login));
    if account.Some? && account.value in s'.accounts {
      assert Tombstone(Some(s'.accounts[account.value]), None) in s'.stones;
    }
  }

  /** The user coupled to an account with this uid, at some point of a careful run, has a fixed login. */
  lemma {:induction false} UidKeepsLogin(s: State, stmts: seq<Statement>, i: nat, j: nat, a: nat, b: nat)
    requires Inv(s) && CarefulRun(s, stmts)
    requires i in s.users && s.users[i].account == Some(a) && a in s.accounts
    requires var s' := Run(s, stmts);
      && j in s'.users && s'.users[j].account == Some(b)
      && b in s'.accounts && s'.accounts[b] == s.accounts[a]
    ensures Run(s, stmts).users[j].login == s.users[i].login
  {
    var s' := Run(s, stmts);
    RunKeepsInv(s, stmts);
    RunRemembers(s, stmts);
    assert UserCovered(s.users[i], s.accounts, s.stones) && UserCovered(s'.users[j], s'.accounts, s'.stones);
    assert Tombstone(Some(s.accounts[a]), Some(s.users[i].LoginHash())) in s'.stones;
  }

  /**
   Permanence fails without care: once the only user of an account is deleted, a user of another login
   inserted onto that account takes over the tombstone, and the first login is free again.
   */
  lemma {:induction false} ForgottenLogin(first: string, second: string, uid: int)
    requires first != second
    ensures
      var s := State(map[], map[0 := uid], {Tombstone(Some(uid), Some(Sha512(first)))});
      var takeover, again := InsertUser(0, second, Some(0)), InsertUser(1, first, None);
      && Inv(s) && !Succeeds(s, again)
      && Succeeds(s, takeover) && Succeeds(After(s, takeover), again)
  {
    var s := State(map[], map[0 := uid], {Tombstone(Some(uid), Some(Sha512(first)))});
    var takeover := InsertUser(0, second, Some(0));
    assert Tombstone(Some(uid), Some(Sha512(first))) in s.stones;
    assert HasUid(s.stones, uid) && HasHash(s.stones, Sha512(first)) && !HasHash(s.stones, Sha512(second));
    assert s.accounts[0] == uid && 0 in s.accounts;
    assert After(s, takeover).stones == {Tombstone(Some(uid), Some(Sha512(second)))};
  }
}
