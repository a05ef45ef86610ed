/** The entities of the user registry, the seeded lookup tables and the constraints the
  * database schema puts on the Users table. */
module Models {
  import opened Wrappers
  import opened Queries

  datatype GroupCode = Admin | User

  datatype StateCode = Active | Blocked

  /** A calendar date without a time of day (DateOnly). */
  datatype Date = Date(year: int, month: int, day: int)

  /** A row of the UserGroups table. */
  datatype UserGroup = UserGroup(id: int, code: GroupCode, description: string)

  /** A row of the UserStates table. */
  datatype UserState = UserState(id: int, code: StateCode, description: string)

  /** A row of the Users table, with its group and state attached. The password field
    * holds the stored credential. */
  datatype User = User(id: int, login: string, password: string, createdDate: Date,
                       group: UserGroup, state: UserState)

  /** The rows the schema seeds into UserGroups. */
  const SeedGroups: seq<UserGroup> :=
    [UserGroup(1, Admin, "This is admin user group"), UserGroup(2, GroupCode.User, "")]

  /** The rows the schema seeds into UserStates. */
  const SeedStates: seq<UserState> :=
    [UserState(1, Active, "Active user"), UserState(2, Blocked, "Deleted user")]

  predicate IsUserGroup(g: UserGroup) { g.code == GroupCode.User }

  predicate IsActiveState(s: UserState) { s.code == Active }

  predicate IsBlockedState(s: UserState) { s.code == Blocked }

  /** StateCode has two values only, so "not Blocked" and "Active" select the same rows. */
  lemma NotBlockedIsActive(s: StateCode)
    ensures s != Blocked <==> s == Active
  {
  }

  /** The seeded group table maps id 1 to Admin and id 2 to User; the state table maps
    * id 1 to Active and id 2 to Blocked; the service's lookups by code find those rows. */
  lemma SeedTables()
    ensures forall g :: g in SeedGroups ==> (g.id == 1 <==> g.code == Admin) && (g.id == 2 <==> g.code == GroupCode.User)
    ensures forall s :: s in SeedStates ==> (s.id == 1 <==> s.code == Active) && (s.id == 2 <==> s.code == Blocked)
    ensures FirstIndex(SeedGroups, IsUserGroup) == Some(1)
    ensures FirstIndex(SeedStates, IsActiveState) == Some(0)
    ensures FirstIndex(SeedStates, IsBlockedState) == Some(1)
  {
    assert !IsUserGroup(SeedGroups[0]) && IsUserGroup(SeedGroups[1]);
    assert IsActiveState(SeedStates[0]) && !IsBlockedState(SeedStates[0]) && IsBlockedState(SeedStates[1]);
  }

  /** The unique index on Login, over rows in any state. */
  predicate UniqueLogins(users: seq<User>) {
    forall i, j :: 0 <= i < j < |users| ==> users[i].login != users[j].login
  }

  /** Id is the primary key. */
  predicate UniqueIds(users: seq<User>) {
    forall i, j :: 0 <= i < j < |users| ==> users[i].id != users[j].id
  }

  /** The schema's constraints on the Users table: both keys, and every group and state
    * reference pointing to a seeded row. */
  predicate ValidUsers(users: seq<User>): (ok: bool)
    ensures ok ==> forall i, j :: 0 <= i < |users| && 0 <= j < |users| && users[i].login == users[j].login ==> i == j
    ensures ok ==> forall i, j :: 0 <= i < |users| && 0 <= j < |users| && users[i].id == users[j].id ==> i == j
  {
    UniqueLogins(users) && UniqueIds(users) &&
    forall u :: u in users ==> u.group in SeedGroups && u.state in SeedStates
  }

  /** Inserting a row whose login is new and whose id is above every id keeps the constraints. */
  lemma InsertKeepsValid(users: seq<User>, u: User)
    requires ValidUsers(users)
    requires forall i :: 0 <= i < |users| ==> users[i].login != u.login && users[i].id < u.id
    requires u.group in SeedGroups && u.state in SeedStates
    ensures ValidUsers(users + [u])
  {
    var users' := users + [u];
    forall x | x in users' ensures x.group in SeedGroups && x.state in SeedStates {
      if x != u {
        assert x in users;
      }
    }
  }

  /** Changing the state of one row to a seeded state keeps the constraints. */
  lemma SetStateKeepsValid(users: seq<User>, i: nat, s: UserState)
    requires ValidUsers(users) && i < |users| && s in SeedStates
    ensures ValidUsers(users[i := users[i].(state := s)])
  {
    var users' := users[i := users[i].(state := s)];
    forall x | x in users' ensures x.group in SeedGroups && x.state in SeedStates {
      var k :| 0 <= k < |users'| && users'[k] == x;
      assert users[k] in users;
    }
  }

  predicate IsAdmin(u: User) { u.group.code == Admin }

  /** The number of rows in group Admin. */
  function AdminCount(users: seq<User>): (n: nat)
    ensures n <= |users|
    ensures n == 0 <==> forall i :: 0 <= i < |users| ==> !IsAdmin(users[i])
    decreases |users|
  {
    if users == [] then 0
    else (if IsAdmin(users[0]) then 1 else 0) + AdminCount(users[1..])
  }

  /** Appending a row adds one Admin exactly when that row is one. */
  lemma {:induction false} AdminCountAppend(users: seq<User>, u: User)
    ensures AdminCount(users + [u]) == AdminCount(users) + (if IsAdmin(u) then 1 else 0)
    decreases |users|
  {
    if users != [] {
      assert (users + [u])[1..] == users[1..] + [u];
      AdminCountAppend(users[1..], u);
    }
  }

  /** Changing rows without changing their groups keeps the number of Admins. */
  lemma {:induction false} AdminCountSameGroups(users: seq<User>, users': seq<User>)
    requires |users| == |users'|
    requires forall i :: 0 <= i < |users| ==> users[i].group == users'[i].group
    ensures AdminCount(users) == AdminCount(users')
    decreases |users|
  {
    if users != [] {
      AdminCountSameGroups(users[1..], users'[1..]);
    }
  }
}
