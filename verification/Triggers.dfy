/**
 The tables and trigger functions of `pycroft/model/unix_account.py`, statement by statement.  Each
 statement runs its BEFORE trigger, the unique and foreign-key checks and the consistency trigger,
 and is rolled back when any of them raises.  From consistent tables it does what the transition
 system of `Tombstones` says.
 */
module Triggers {
  import opened Wrappers
  import opened Tombstones

  class Database {
    var users: map<nat, User>
    var accounts: map<nat, int>
    var stones: Stones

    ghost function Tables(): State
      reads this
    {
      State(users, accounts, stones)
    }

    ghost predicate Valid()
      reads this
    {
      Inv(Tables())
    }

    constructor ()
      ensures Valid() && Tables() == State(map[], map[], {})
    {
      users, accounts, stones := map[], map[], {};
    }

    // ----- statements on unix_tombstone -----

    method StoneOfUid(uid: int) returns (t: Option<Tombstone>)
      ensures t.None? <==> !HasUid(stones, uid)
      ensures t.Some? ==> t.value in stones && t.value.uid == Some(uid)
    {
      if x :| x in stones && x.uid == Some(uid) {
        return Some(x);
      }
      return None;
    }

    method StoneOfHash(h: Hash) returns (t: Option<Tombstone>)
      ensures t.None? <==> !HasHash(stones, h)
      ensures t.Some? ==> t.value in stones && t.value.hash == Some(h)
    {
      if x :| x in stones && x.hash == Some(h) {
        return Some(x);
      }
      return None;
    }

    method InsertStone(t: Tombstone) returns (r: Result)
      requires t.uid.Some? || t.hash.Some?
      modifies this`stones
      ensures r.Ok? <==>
        (t.uid.Some? ==> !HasUid(old(stones), t.uid.value))
        && (t.hash.Some? ==> !HasHash(old(stones), t.hash.value))
      ensures stones == if r.Ok? then old(stones) + {t} else old(stones)
      ensures r.Ok? || r == Failed(UniqueViolation)
    {
      if (t.uid.Some? && HasUid(stones, t.uid.value)) || (t.hash.Some? && HasHash(stones, t.hash.value)) {
        return Failed(UniqueViolation);
      }
      stones := stones + {t};
      return Ok;
    }

    /** Some user refers to a hash that has no tombstone. */
    predicate Dangling(h: Hash)
      reads this
    {
      !HasHash(stones, h) && exists i :: i in users && users[i].LoginHash() == h
    }

    /**
     `update unix_tombstone set login_hash = h where uid = ...`, with the unique constraint and,
     unless deferred, the foreign key of the users that refer to the overwritten hash.  The lifecycle
     trigger has nothing to refuse, since neither column becomes null.
     */
    method UpdateHash(uid: int, h: Hash, deferred: bool) returns (r: Result)
      requires StonesOk(stones)
      modifies this`stones
      ensures r.Ok? <==>
        !HasUid(old(stones), uid) ||
        (Settable(old(stones), uid, h) && (deferred || !Orphans(users, old(stones), uid, h)))
      ensures r.Ok? ==> stones == WithHash(old(stones), uid, h)
      ensures r.Ok? || r == Failed(UniqueViolation) || r == Failed(ForeignKeyViolation)
    {
      var t := StoneOfUid(uid);
      if t.None? {
        return Ok;
      }
      var other := StoneOfHash(h);
      if other.Some? && other != t {
        return Failed(UniqueViolation);
      }
      stones := stones - {t.value} + {t.value.(hash := Some(h))};
      UpdateIsWithHash(old(stones), t.value, h);
      if !deferred && t.value.hash.Some? && Dangling(t.value.hash.value) {
        return Failed(ForeignKeyViolation);
      }
      return Ok;
    }

    // ----- trigger functions -----

    method UnixAccountEnsureTombstone(id: nat, uid: int) returns (r: Result)
      requires Valid()
      modifies this`stones
      ensures id !in accounts ==> r.Ok? && stones == After(old(Tables()), Statement.InsertAccount(id, uid)).stones
    {
      var stone := StoneOfUid(uid);
      if i :| i in users && users[i].account == Some(id) {
        // the account exists already, and the insert will be refused
        if stone.None? {
          r := InsertStone(Tombstone(Some(uid), Some(users[i].LoginHash())));
          return;
        }
        return Ok;
      }
      if stone.None? {
        r := InsertStone(Tombstone(Some(uid), None));
        return;
      }
      return Ok;
    }

    /** Before an insert into `user`. */
    method UserEnsureTombstoneOnInsert(id: nat, new_: User) returns (r: Result)
      requires Valid()
      modifies this`stones
      ensures id !in users && (new_.account.None? || new_.account.value !in accounts) ==>
        && (r.Ok? <==> !HasHash(old(stones), new_.LoginHash()))
        && (r.Ok? ==> stones == old(stones) + {Tombstone(None, Some(new_.LoginHash()))})
      ensures id !in users && new_.account.Some? && new_.account.value in accounts ==>
        var uid := accounts[new_.account.value];
        && (r.Ok?
            <==> Settable(old(stones), uid, new_.LoginHash()) && !Orphans(users, old(stones), uid, new_.LoginHash()))
        && (r.Ok? ==> stones == WithHash(old(stones), uid, new_.LoginHash()))
      ensures r != Failed(Inconsistent) && r != Failed(AssertFailure)
    {
      var uid := if new_.account.Some? && new_.account.value in accounts then Some(accounts[new_.account.value])
        else None;
      var h := new_.LoginHash();
      if id in users && HasHash(stones, h) {
        return Failed(ForeignKeyViolation);
      }
      if uid.None? {
        r := InsertStone(Tombstone(None, Some(h)));
      } else {
        // the refusal to re-couple looks at a variable that has not been set, and is never taken
        r := UpdateHash(uid.value, h, false);
      }
    }

    /** Before an update of `user.unix_account_id`. */
    method UserEnsureTombstoneOnUpdate(id: nat, new_: User) returns (r: Result)
      requires Valid() && id in users && new_.login == users[id].login
      modifies this`stones
      ensures !(new_.account.Some? && new_.account != users[id].account && new_.account.value in accounts) ==>
        r.Ok? && stones == old(stones)
      ensures new_.account.Some? && new_.account != users[id].account && new_.account.value in accounts ==>
        var uid, h := accounts[new_.account.value], new_.LoginHash();
        && (r.Ok? <==> Couplable(old(stones), uid, h))
        && (r.Ok? ==> stones == WithHash(DropUnpaired(old(stones), h), uid, h))
      ensures r != Failed(Inconsistent) && r != Failed(AssertFailure)
    {
      var h := new_.LoginHash();
      var login := StoneOfHash(h);
      if new_.account.Some? && new_.account == users[id].account {
        return Ok;
      }
      if new_.account.None? || new_.account.value !in accounts {
        return Ok;
      }
      var uid := accounts[new_.account.value];
      var stone := StoneOfUid(uid);
      assert UserCovered(users[id], accounts, stones) && stone.Some? && login.Some?;
      if stone.value.hash.Some? && stone.value.hash != Some(h) {
        return Failed(CheckViolation);
      }
      if login.None? {
        return Failed(AssertFailure);
      }
      r := Couple(login.value, stone.value, uid, h);
    }

    /** The tail of the update branch: throw the user's own tombstone away, or expect a shared one. */
    method Couple(login: Tombstone, stone: Tombstone, uid: int, h: Hash) returns (r: Result)
      requires StonesOk(stones) && login in stones && stone in stones
      requires login.hash == Some(h) && stone.uid == Some(uid) && (stone.hash.Some? ==> stone.hash == Some(h))
      modifies this`stones
      ensures r.Ok? <==> Couplable(old(stones), uid, h)
      ensures r.Ok? ==> stones == WithHash(DropUnpaired(old(stones), h), uid, h)
      ensures r != Failed(Inconsistent) && r != Failed(AssertFailure)
    {
      if login.uid.None? {
        HalvesMerge(stones, login, stone, uid, h);
        stones := DropHash(stones, h);
        r := UpdateHash(uid, h, true);
        WithHashTwice(DropHash(old(stones), h), uid, h);
        if r != Ok {
          return;
        }
        if Dangling(h) {
          return Failed(ForeignKeyViolation);
        }
      } else {
        if stone.hash.Some? && stone.hash != login.hash {
          return Failed(CheckViolation);
        }
        if stone == login {
          SharedStays(stones, stone, uid, h);
        }
      }
      r := UpdateHash(uid, h, false);
    }

    /** After a statement on either table: a coupled pair must share its tombstone. */
    method CheckConsistency(u: User, uid: int) returns (r: Result)
      requires StonesOk(stones)
      ensures r == if Tombstone(Some(uid), Some(u.LoginHash())) in stones then Ok else Failed(Inconsistent)
    {
      var userStone := StoneOfHash(u.LoginHash());
      var accountStone := StoneOfUid(uid);
      if accountStone.None? || userStone.None? || userStone != accountStone {
        return Failed(Inconsistent);
      }
      return Ok;
    }

    // ----- statements on unix_account and user -----

    method InsertAccount(id: nat, uid: int) returns (r: Result)
      requires Valid()
      modifies this
      ensures Valid() && Tables() == Step(old(Tables()), Statement.InsertAccount(id, uid))
      ensures r.Ok? <==> Succeeds(old(Tables()), Statement.InsertAccount(id, uid))
      ensures r != Failed(Inconsistent) && r != Failed(AssertFailure)
      ensures r.Ok? <==> id !in old(accounts) && uid !in old(accounts).Values
      ensures r.Ok? ==> id in accounts && accounts[id] == uid && SameBut(old(accounts), accounts, {id})
      ensures r.Ok? ==> users == old(users) && AccountStones(old(stones), stones, uid)
      ensures !r.Ok? ==> Tables() == old(Tables())
    {
      ghost var before := Tables();
      InsertAccountRows(before, id, uid);
      if id in accounts || uid in accounts.Values {
        return Failed(UniqueViolation);
      }
      r := UnixAccountEnsureTombstone(id, uid);
      accounts := accounts[id := uid];
      StepKeepsInv(before, Statement.InsertAccount(id, uid));
      assert forall i :: i in users ==> UserCovered(users[i], before.accounts, before.stones);
      r := CheckAccount(id, uid);
    }

    /** The consistency trigger on `unix_account`. */
    method CheckAccount(id: nat, uid: int) returns (r: Result)
      requires StonesOk(stones)
      ensures (forall i :: i in users ==> users[i].account != Some(id)) ==> r.Ok?
    {
      if i :| i in users && users[i].account == Some(id) {
        r := CheckConsistency(users[i], uid);
        return;
      }
      return Ok;
    }

    method InsertUser(id: nat, login: string, account: Option<nat>) returns (r: Result)
      requires Valid()
      modifies this
      ensures Valid() && Tables() == Step(old(Tables()), Statement.InsertUser(id, login, account))
      ensures r.Ok? <==> Succeeds(old(Tables()), Statement.InsertUser(id, login, account))
      ensures r != Failed(Inconsistent) && r != Failed(AssertFailure)
      ensures account.None? ==> (r.Ok? <==> id !in old(users) && Unused(old(stones), login))
      ensures account.Some? ==>
        (r.Ok? <==>
          && id !in old(users) && account.value in old(accounts)
          && (forall i :: i in old(users) ==>
                Tombstone(Some(old(accounts)[account.value]), Some(Sha512(old(users)[i].login))) !in old(stones))
          && (forall t :: t in old(stones) && t.hash == Some(Sha512(login)) ==>
                t.uid == Some(old(accounts)[account.value])))
      ensures r.Ok? ==> id !in old(users) && id in users && users[id].login == login && users[id].account == account
      ensures r.Ok? ==> SameBut(old(users), users, {id}) && accounts == old(accounts)
      ensures r.Ok? && account.None? ==> UserStones(old(stones), stones, login)
      ensures r.Ok? && account.Some? ==>
        account.value in accounts && CoupledStones(old(stones), stones, accounts[account.value], login, false)
      ensures !r.Ok? ==> Tables() == old(Tables())
    {
      ghost var before := Tables();
      InsertUserRows(before, id, login, account);
      InsertUserFate(before, id, login, account);
      var savedUsers, savedStones := users, stones;
      r := UserEnsureTombstoneOnInsert(id, User(login, account));
      if r.Ok? {
        r := AddUser(id, User(login, account));
      }
      InsertUserOutcome(before, id, login, account);
      if r != Ok {
        users, stones := savedUsers, savedStones;
      } else {
        StepKeepsInv(before, Statement.InsertUser(id, login, account));
        assert UserCovered(users[id], accounts, stones);
        if account.Some? {
          r := CheckConsistency(users[id], accounts[account.value]);
        }
      }
    }

    /** The row itself, with its unique and foreign-key constraints. */
    method AddUser(id: nat, u: User) returns (r: Result)
      modifies this`users
      ensures r.Ok? <==>
        && id !in old(users) && (u.account.Some? ==> u.account.value in accounts) && HasHash(stones, u.LoginHash())
        && forall i :: i in old(users) ==> Distinct(u, old(users)[i])
      ensures users == if r.Ok? then old(users)[id := u] else old(users)
      ensures r != Failed(Inconsistent) && r != Failed(AssertFailure)
    {
      if id in users || exists i :: i in users && !Distinct(u, users[i]) {
        return Failed(UniqueViolation);
      }
      if (u.account.Some? && u.account.value !in accounts) || !HasHash(stones, u.LoginHash()) {
        return Failed(ForeignKeyViolation);
      }
      users := users[id := u];
      return Ok;
    }

    method SetAccount(id: nat, account: Option<nat>) returns (r: Result)
      requires Valid()
      modifies this
      ensures Valid() && Tables() == Step(old(Tables()), Statement.SetAccount(id, account))
      ensures r.Ok? <==> Succeeds(old(Tables()), Statement.SetAccount(id, account))
      ensures r != Failed(Inconsistent) && r != Failed(AssertFailure)
      ensures id in old(users) && account.Some? && account != old(users)[id].account ==>
        (r.Ok? <==> account.value in old(accounts)
                    && Mergeable(old(stones), old(accounts)[account.value], old(users)[id].login))
      ensures r.Ok? && id in old(users) ==>
        && id in users && users[id].account == account && users[id].login == old(users)[id].login
        && SameBut(old(users), users, {id}) && accounts == old(accounts)
      ensures r.Ok? && id in old(users) && account.Some? ==>
        && account.value in accounts
        && Tombstone(Some(accounts[account.value]), Some(Sha512(users[id].login))) in stones
      ensures r.Ok? && id in old(users) && account.Some? && account != old(users)[id].account ==>
        CoupledStones(old(stones), stones, accounts[account.value], users[id].login, true)
      ensures id in old(users) && (account.None? || account == old(users)[id].account) ==>
        r.Ok? && stones == old(stones)
      ensures id !in old(users) || !r.Ok? ==> Tables() == old(Tables())
    {
      ghost var before := Tables();
      if id !in users {
        return Ok;
      }
      SetAccountRows(before, id, account);
      r := UpdateOrRollBack(id, account);
      if r != Ok {
        return;
      }
      if account.Some? {
        SetAccountStones(before, id, account);
      }
      StepKeepsInv(before, Statement.SetAccount(id, account));
      assert UserCovered(users[id], accounts, stones);
      if account.Some? {
        r := CheckConsistency(users[id], accounts[account.value]);
      }
    }

    /** The trigger before the update, and the update. */
    method UpdateOrRollBack(id: nat, account: Option<nat>) returns (r: Result)
      requires Valid() && id in users
      modifies this
      ensures r.Ok? <==> Succeeds(old(Tables()), Statement.SetAccount(id, account))
      ensures Tables() == if r.Ok? then After(old(Tables()), Statement.SetAccount(id, account)) else old(Tables())
      ensures r != Failed(Inconsistent) && r != Failed(AssertFailure)
    {
      ghost var before := Tables();
      var savedStones := stones;
      var u := users[id].(account := account);
      assert UserCovered(users[id], accounts, stones);
      r := UserEnsureTombstoneOnUpdate(id, u);
      SetAccountOutcome(before, id, account);
      if r.Ok? {
        r := UpdateUser(id, u);
      }
      if r != Ok {
        stones := savedStones;
      }
    }

    /** The row itself, with the unique and the foreign key of its account. */
    method UpdateUser(id: nat, u: User) returns (r: Result)
      requires id in users && u.login == users[id].login
      modifies this`users
      ensures r.Ok? <==>
        && (u.account.Some? ==> u.account.value in accounts)
        && (u.account.Some? ==> forall i :: i in old(users) && i != id ==> old(users)[i].account != u.account)
      ensures users == if r.Ok? then old(users)[id := u] else old(users)
      ensures r != Failed(Inconsistent) && r != Failed(AssertFailure)
    {
      if u.account.Some? && exists i :: i in users && i != id && users[i].account == u.account {
        return Failed(UniqueViolation);
      }
      if u.account.Some? && u.account.value !in accounts {
        return Failed(ForeignKeyViolation);
      }
      users := users[id := u];
      return Ok;
    }

    method DeleteUser(id: nat) returns (r: Result)
      requires Valid()
      modifies this
      ensures r.Ok? && Valid() && Tables() == Step(old(Tables()), Statement.DeleteUser(id))
      ensures id !in users && SameBut(old(users), users, {id}) && accounts == old(accounts) && stones == old(stones)
    {
      StepKeepsInv(Tables(), Statement.DeleteUser(id));
      users := users - {id};
      return Ok;
    }

    /** The foreign key of the user is `ON DELETE SET NULL`, which fires the triggers of `user`. */
    method DeleteAccount(id: nat) returns (r: Result)
      requires Valid()
      modifies this
      ensures r.Ok? && Valid() && Tables() == Step(old(Tables()), Statement.DeleteAccount(id))
      ensures id !in accounts && SameBut(old(accounts), accounts, {id}) && stones == old(stones)
      ensures users.Keys == old(users).Keys
      ensures forall i :: i in users ==>
        && users[i].login == old(users)[i].login && users[i].account != Some(id)
        && (old(users)[i].account != Some(id) ==> users[i].account == old(users)[i].account)
        && (old(users)[i].account == Some(id) ==> users[i].account.None?)
    {
      StepKeepsInv(Tables(), Statement.DeleteAccount(id));
      r := SetNull(id);
      accounts := accounts - {id};
    }

    method SetNull(account: nat) returns (r: Result)
      requires Valid()
      modifies this`users, this`stones
      ensures r.Ok? && users == Decoupled(old(users), account) && stones == old(stones)
    {
      if i :| i in users && users[i].account == Some(account) {
        DecoupledOne(users, accounts, i, account);
        r := UserEnsureTombstoneOnUpdate(i, users[i].(account := None));
        users := users[i := users[i].(account := None)];
      } else {
        DecoupledNone(users, account);
        return Ok;
      }
    }

    /**
     The tombstone steps of `create_user` (`pycroft/lib/user/lifecycle.py`): the login must never
     have been used; the account comes first, with a uid fresh from the sequence.
     */
    method CreateUser(userId: nat, accountId: nat, uid: int, login: string) returns (taken: bool)
      requires Valid()
      requires userId !in users && accountId !in accounts && !HasUid(stones, uid)
      modifies this
      ensures Valid() && (taken <==> HasHash(old(stones), Sha512(login)))
      ensures taken ==> Tables() == old(Tables())
      ensures !taken ==>
                Tables() == old(State(users[userId := User(login, Some(accountId))], accounts[accountId := uid],
                                               stones + {Tombstone(Some(uid), Some(Sha512(login)))}))
    {
      if HasHash(stones, Sha512(login)) {
        return true;
      }
      ghost var before := stones;
      FreshUid(Tables(), accountId, uid, login);
      var r := InsertAccount(accountId, uid);
      r := InsertUser(userId, login, Some(accountId));
      return false;
    }
  }

  // ----- what the statements do to the rows -----

  /** The rows of all other ids are as before. */
  ghost predicate SameBut<T>(before: map<nat, T>, after: map<nat, T>, ids: set<nat>) {
    forall i :: i !in ids ==> (i in after <==> i in before) && (i in before ==> after[i] == before[i])
  }

  /** The uid has a tombstone, which is new, without a hash, if it had none. */
  ghost predicate AccountStones(before: Stones, after: Stones, uid: int) {
    forall t :: t in after <==>
      t in before || (t == Tombstone(Some(uid), None) && forall x :: x in before ==> x.uid != Some(uid))
  }

  /** The login has a tombstone of its own. */
  ghost predicate UserStones(before: Stones, after: Stones, login: string) {
    forall t :: t in after <==> t in before || t == Tombstone(None, Some(Sha512(login)))
  }

  /** No tombstone is left of the login. */
  ghost predicate Unused(stones: Stones, login: string) {
    forall t :: t in stones ==> t.hash != Some(Sha512(login))
  }

  /** Uid and login have one tombstone, or one each. */
  predicate Mergeable(stones: Stones, uid: int, login: string) {
    || Tombstone(Some(uid), Some(Sha512(login))) in stones
    || (Tombstone(Some(uid), None) in stones && Tombstone(None, Some(Sha512(login))) in stones)
  }

  /** Uid and login share a tombstone, which takes the place of that of the uid, and perhaps of that of the login. */
  ghost predicate CoupledStones(before: Stones, after: Stones, uid: int, login: string, merged: bool) {
    forall t :: t in after <==>
      || t == Tombstone(Some(uid), Some(Sha512(login)))
      || (t in before && t.uid != Some(uid) && (merged ==> t != Tombstone(None, Some(Sha512(login)))))
  }

  lemma {:induction false} InsertAccountRows(s: State, id: nat, uid: int)
    requires Inv(s)
    ensures
      var after := After(s, Statement.InsertAccount(id, uid));
      && after.users == s.users && AccountStones(s.stones, after.stones, uid)
      && id in after.accounts && after.accounts[id] == uid && SameBut(s.accounts, after.accounts, {id})
  {
  }

  lemma {:induction false} InsertUserRows(s: State, id: nat, login: string, account: Option<nat>)
    requires Inv(s)
    ensures
      var stmt := Statement.InsertUser(id, login, account);
      var after := After(s, stmt);
      Succeeds(s, stmt) ==>
        && id !in s.users && id in after.users && after.users[id].login == login && after.users[id].account == account
        && SameBut(s.users, after.users, {id}) && after.accounts == s.accounts
        && (account.None? ==> UserStones(s.stones, after.stones, login))
        && (account.Some? ==>
              && account.value in s.accounts
              && CoupledStones(s.stones, after.stones, s.accounts[account.value], login, false))
  {
    if account.Some? && account.value in s.accounts {
      assert HasUid(s.stones, s.accounts[account.value]);
    }
  }

  lemma {:induction false} InsertUserFate(s: State, id: nat, login: string, account: Option<nat>)
    requires Inv(s)
    ensures account.None? ==>
      (Succeeds(s, Statement.InsertUser(id, login, account)) <==> id !in s.users && Unused(s.stones, login))
    ensures account.Some? ==>
      (Succeeds(s, Statement.InsertUser(id, login, account)) <==>
        && id !in s.users && account.value in s.accounts
        && (forall i :: i in s.users ==>
              Tombstone(Some(s.accounts[account.value]), Some(Sha512(s.users[i].login))) !in s.stones)
        && (forall t :: t in s.stones && t.hash == Some(Sha512(login)) ==> t.uid == Some(s.accounts[account.value])))
  {
    if account.Some? && account.value in s.accounts {
      var uid := s.accounts[account.value];
      assert HasHash(s.stones, Sha512(login)) ==>
        (Tombstone(Some(uid), Some(Sha512(login))) in s.stones
         <==> forall t :: t in s.stones && t.hash == Some(Sha512(login)) ==> t.uid == Some(uid));
    }
  }

  lemma {:induction false} SetAccountRows(s: State, id: nat, account: Option<nat>)
    requires id in s.users
    ensures
      var after, u := After(s, Statement.SetAccount(id, account)), s.users[id];
      && id in after.users && after.users[id].account == account && after.users[id].login == u.login
      && SameBut(s.users, after.users, {id}) && after.accounts == s.accounts
      && (account.None? || account == u.account ==> after.stones == s.stones)
  {
  }

  lemma {:induction false} SetAccountStones(s: State, id: nat, account: Option<nat>)
    requires Inv(s) && id in s.users && account.Some? && Succeeds(s, Statement.SetAccount(id, account))
    ensures
      var stones, login := After(s, Statement.SetAccount(id, account)).stones, s.users[id].login;
      && account.value in s.accounts
      && Tombstone(Some(s.accounts[account.value]), Some(Sha512(login))) in stones
      && (account != s.users[id].account ==> CoupledStones(s.stones, stones, s.accounts[account.value], login, true))
  {
    assert UserCovered(s.users[id], s.accounts, s.stones);
    var uid, h := s.accounts[account.value], s.users[id].LoginHash();
    if account != s.users[id].account {
      assert HasUid(s.stones, uid);
      CoupledOver(s.stones, uid, h);
    }
  }

  /** A tombstone of the uid is not one without a uid. */
  lemma {:induction false} CoupledOver(stones: Stones, uid: int, h: Hash)
    requires StonesOk(stones) && HasUid(stones, uid)
    ensures CoupledStones(stones, WithHash(DropUnpaired(stones, h), uid, h), uid, h.login, true)
  {
    var t :| t in stones && t.uid == Some(uid);
    assert t in DropUnpaired(stones, h);
  }

  // ----- what the updates come to -----

  /** The trigger and the constraints together decide as the transition system does. */
  lemma {:induction false} InsertUserOutcome(s: State, id: nat, login: string, account: Option<nat>)
    requires Inv(s)
    ensures Succeeds(s, Statement.InsertUser(id, login, account)) <==>
      && id !in s.users && (account.Some? ==> account.value in s.accounts)
      && (forall i :: i in s.users ==> Distinct(User(login, account), s.users[i]))
      && (account.None? ==> !HasHash(s.stones, Sha512(login)))
      && (account.Some? ==> Settable(s.stones, s.accounts[account.value], Sha512(login))
                            && !Orphans(s.users, s.stones, s.accounts[account.value], Sha512(login)))
  {
  }

  /** Coupling under the invariant never meets the unique constraint of the account. */
  lemma {:induction false} SetAccountOutcome(s: State, id: nat, account: Option<nat>)
    requires Inv(s) && id in s.users
    ensures Succeeds(s, Statement.SetAccount(id, account)) && account.Some? ==>
      account.value in s.accounts && forall i :: i in s.users && i != id ==> s.users[i].account != account
  {
    forall i | i in s.users && i != id && Succeeds(s, Statement.SetAccount(id, account)) && account.Some?
      ensures s.users[i].account != account
    {
      assert UserCovered(s.users[i], s.accounts, s.stones) && Distinct(s.users[i], s.users[id])
        && Distinct(s.users[id], s.users[i]);
      assert UserCovered(s.users[id], s.accounts, s.stones);
    }
  }

  lemma {:induction false} FreshUid(s: State, accountId: nat, uid: int, login: string)
    requires Inv(s) && accountId !in s.accounts && !HasUid(s.stones, uid) && !HasHash(s.stones, Sha512(login))
    ensures uid !in s.accounts.Values
    ensures
      var s' := After(s, Statement.InsertAccount(accountId, uid));
      && Vacant(s', uid) && !HasHash(s'.stones, Sha512(login))
      && WithHash(s'.stones, uid, Sha512(login)) == s.stones + {Tombstone(Some(uid), Some(Sha512(login)))}
  {
    var s' := After(s, Statement.InsertAccount(accountId, uid));
    assert Tombstone(Some(uid), None) in s'.stones && HasUid(s'.stones, uid);
  }

  lemma DecoupledOne(users: map<nat, User>, accounts: map<nat, int>, i: nat, a: nat)
    requires KeysOk(users, accounts) && i in users && users[i].account == Some(a)
    ensures users[i := users[i].(account := None)] == Decoupled(users, a)
  {
    forall j | j in users && j != i
      ensures users[j].account != Some(a)
    {
      assert Distinct(users[i], users[j]);
    }
  }

  lemma DecoupledNone(users: map<nat, User>, a: nat)
    requires forall j :: j in users ==> users[j].account != Some(a)
    ensures users == Decoupled(users, a)
  {
  }

  /** No other tombstone has the hash. */
  predicate Settable(stones: Stones, uid: int, h: Hash) {
    forall t :: t in stones && t.hash == Some(h) ==> t.uid == Some(uid)
  }

  /** Overwriting the hash of the tombstone would leave a user without one. */
  ghost predicate Orphans(users: map<nat, User>, stones: Stones, uid: int, h: Hash) {
    exists i :: i in users && users[i].LoginHash() != h && Tombstone(Some(uid), Some(users[i].LoginHash())) in stones
  }

  lemma UpdateIsWithHash(stones: Stones, t: Tombstone, h: Hash)
    requires StonesOk(stones) && t in stones && t.uid.Some?
    ensures stones - {t} + {t.(hash := Some(h))} == WithHash(stones, t.uid.value, h)
    ensures t.hash.Some? && t.hash != Some(h) ==> !HasHash(WithHash(stones, t.uid.value, h), t.hash.value)
    ensures t.hash == Some(h) ==> HasHash(WithHash(stones, t.uid.value, h), h)
  {
    assert HasUid(stones, t.uid.value);
    assert t.(hash := Some(h)) in WithHash(stones, t.uid.value, h);
  }

  lemma WithHashTwice(stones: Stones, uid: int, h: Hash)
    requires StonesOk(stones) && HasUid(stones, uid) && !HasHash(stones, h)
    ensures StonesOk(WithHash(stones, uid, h)) && Tombstone(Some(uid), Some(h)) in WithHash(stones, uid, h)
    ensures HasUid(WithHash(stones, uid, h), uid) && HasHash(WithHash(stones, uid, h), h)
    ensures WithHash(WithHash(stones, uid, h), uid, h) == WithHash(stones, uid, h)
  {
    WithHashOk(stones, uid, h);
  }

  lemma SharedStays(stones: Stones, stone: Tombstone, uid: int, h: Hash)
    requires StonesOk(stones) && stone in stones && stone == Tombstone(Some(uid), Some(h))
    ensures DropUnpaired(stones, h) == stones && HasUid(stones, uid) && WithHash(stones, uid, h) == stones
  {}

  /** A tombstone of the hash alone and one of the uid alone. */
  lemma HalvesMerge(stones: Stones, login: Tombstone, stone: Tombstone, uid: int, h: Hash)
    requires StonesOk(stones) && login in stones && stone in stones
    requires login == Tombstone(None, Some(h)) && stone.uid == Some(uid)
    requires stone.hash.Some? ==> stone.hash == Some(h)
    ensures stone == Tombstone(Some(uid), None)
    ensures DropHash(stones, h) == DropUnpaired(stones, h) && StonesOk(DropHash(stones, h))
            && HasUid(DropHash(stones, h), uid)
  {
    assert stone in DropHash(stones, h);
  }
}
