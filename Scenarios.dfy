/** The outcomes the repository's API tests expect, derived from the service's contracts
  * over the three rows of the test fixture. */
module Scenarios {
  import opened Wrappers
  import opened Models
  import opened Users
  import Passwords
  import Queries

  const AdminGroup: UserGroup := SeedGroups[0]

  /** The fixture: an active Admin, an active User and a blocked User. */
  function FixtureRows(): (rows: seq<User>)
    ensures ValidUsers(rows) && |rows| == 3
  {
    [User.User(1, "First", "secret1", Date(2023, 5, 9), AdminGroup, ActiveState),
     User.User(2, "Second", "secret2", Date(2023, 5, 10), DefaultGroup, ActiveState),
     User.User(3, "Bloced", "secret3", Date(2023, 5, 8), DefaultGroup, BlockedState)]
  }

  /** A new login is created as an Active User stamped with today's date. */
  method CreateNewLogin(derive: Passwords.DeriveKey, salt: Passwords.Key, today: Date)
    returns (created: Option<User>)
    ensures created.Some? && created.value.login == "new user"
    ensures created.value.state.code == Active && created.value.group.code == GroupCode.User
    ensures created.value.createdDate == today
  {
    var service := new UserService(derive, FixtureRows(), 4);
    var msg;
    created, msg := service.Create(CreateRequest("new user", "secret1", None), salt, today);
  }

  /** An Active row is found by its login. */
  method GetExisting(derive: Passwords.DeriveKey) returns (found: Option<User>)
    ensures found == Some(FixtureRows()[0])
  {
    var service := new UserService(derive, FixtureRows(), 4);
    service.GetIsUnique(FixtureRows()[0]);
    found := service.Get("First");
  }

  /** A taken login is refused with its message. */
  method CreateTakenLogin(derive: Passwords.DeriveKey, salt: Passwords.Key, today: Date)
    returns (created: Option<User>, msg: string)
    ensures created == None && msg == "Login has already taken"
  {
    var service := new UserService(derive, FixtureRows(), 4);
    assert service.users[0].login == "First";
    created, msg := service.Create(CreateRequest("First", "123", None), salt, today);
  }

  /** A second Admin is refused with its message. */
  method CreateSecondAdmin(derive: Passwords.DeriveKey, salt: Passwords.Key, today: Date)
    returns (created: Option<User>, msg: string)
    ensures created == None && msg == "Admin has already created and must be single"
  {
    var service := new UserService(derive, FixtureRows(), 4);
    assert IsAdmin(service.users[0]);
    created, msg := service.Create(CreateRequest("Second admin", "123", Some(AdminGroup)), salt, today);
  }

  /** The filter of GetAll keeps the first two fixture rows, in order. */
  lemma FixtureNotBlocked()
    ensures Queries.Where(FixtureRows(), NotBlocked) == [FixtureRows()[0], FixtureRows()[1]]
  {
    var rows := FixtureRows();
    var r0, r1, r2 := rows[0], rows[1], rows[2];
    assert NotBlocked(r0) && NotBlocked(r1) && !NotBlocked(r2);
    Queries.WhereOne(r2, NotBlocked);
    assert rows[1..][1..] == [r2];
    assert Queries.Where(rows[1..], NotBlocked) == [r1] + Queries.Where([r2], NotBlocked);
    assert Queries.Where(rows, NotBlocked) == [r0] + Queries.Where(rows[1..], NotBlocked);
  }

  /** The list holds the two Active rows, in table order, and not the Blocked one. */
  method ListActive(derive: Passwords.DeriveKey) returns (listed: seq<User>)
    ensures listed == [FixtureRows()[0], FixtureRows()[1]]
  {
    var service := new UserService(derive, FixtureRows(), 4);
    listed := service.GetAll();
    FixtureNotBlocked();
  }

  /** After deleting an Active row, it is no longer found. */
  method DeleteThenGet(derive: Passwords.DeriveKey) returns (deleted: bool, found: Option<User>)
    ensures deleted && found == None
  {
    var service := new UserService(derive, FixtureRows(), 4);
    assert service.users[0].login == "First";
    deleted := service.Delete("First");
    found := service.Get("First");
  }

  /** Create alice, fail to create alice again, delete alice: nothing is left to list. */
  method AliceLifecycle(derive: Passwords.DeriveKey, salt: Passwords.Key, today: Date)
    returns (first: Option<User>, second: Option<User>, msg: string, deleted: bool,
             found: Option<User>, listed: seq<User>)
    ensures first.Some? && first.value.group.code == GroupCode.User
    ensures first.value.state.code == Active && first.value.createdDate == today
    ensures second == None && msg == "Login has already taken"
    ensures deleted && found == None && listed == []
  {
    var service := new UserService(derive, [], 1);
    var m;
    first, m := service.Create(CreateRequest("alice", "p1", None), salt, today);
    second, msg := service.Create(CreateRequest("alice", "p2", None), salt, today);
    deleted := service.Delete("alice");
    found := service.Get("alice");
    listed := service.GetAll();
    assert |service.users| == 1 && service.users[0].login == "alice";
  }
}
