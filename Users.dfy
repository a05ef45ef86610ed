/** UserService: the user directory over the Users table, held here in memory. */
module Users {
  import opened Wrappers
  import opened Queries
  import opened Models
  import Passwords

  /** The body of a create request: the fields of User that Create reads. */
  datatype CreateRequest = CreateRequest(login: string, password: string, group: Option<UserGroup>)

  const AdminExistsMessage: string := "Admin has already created and must be single"

  const LoginTakenMessage: string := "Login has already taken"

  /** The seeded rows Create and Delete attach to a user. */
  const DefaultGroup: UserGroup := SeedGroups[1]
  const ActiveState: UserState := SeedStates[0]
  const BlockedState: UserState := SeedStates[1]

  predicate RequestsAdmin(request: CreateRequest) {
    request.group.Some? && request.group.value.code == Admin
  }

  /** An Admin request is refused when some row, in any state, is already in group Admin. */
  predicate AdminRefused(request: CreateRequest, users: seq<User>) {
    RequestsAdmin(request) && exists i :: 0 <= i < |users| && IsAdmin(users[i])
  }

  /** The filter GetAll applies. */
  predicate NotBlocked(u: User) {
    u.state.code != Blocked
  }

  /** Whether some row, in any state, has the login (what the unique index rejects). */
  predicate LoginTaken(users: seq<User>, login: string) {
    exists i :: 0 <= i < |users| && users[i].login == login
  }

  class UserService {
    /** The Users table, in store order. */
    var users: seq<User>
    /** The next id the store assigns. */
    var nextId: int
    /** The key derivation of the injected password service. */
    const derive: Passwords.DeriveKey

    ghost predicate Valid()
      reads this
    {
      ValidUsers(users) && forall i :: 0 <= i < |users| ==> users[i].id < nextId
    }

    /** A service over a table already holding rows (the seeded database). */
    constructor (derive: Passwords.DeriveKey, rows: seq<User>, nextId: int)
      requires ValidUsers(rows)
      requires forall i :: 0 <= i < |rows| ==> rows[i].id < nextId
      ensures Valid()
      ensures this.derive == derive && users == rows && this.nextId == nextId
    {
      this.derive := derive;
      users := rows;
      this.nextId := nextId;
    }

    /** GetAll: the rows whose state is not Blocked, i.e. the Active ones. */
    function GetAll(): (r: seq<User>)
      reads this
      ensures forall u :: u in r ==> u in users && u.state.code == Active
      ensures forall u :: u in users && u.state.code == Active ==> u in r
      ensures forall u :: multiset(r)[u] == if u.state.code == Active then multiset(users)[u] else 0
    {
      WhereCounts(users, NotBlocked);
      Where(users, NotBlocked)
    }

    /** Get: the first Active row whose login is exactly login, or null. */
    function Get(login: string): (r: Option<User>)
      reads this
      ensures r.Some? ==> r.value in users && r.value.login == login && r.value.state.code == Active
      ensures r.None? <==> forall u :: u in users ==> u.login != login || u.state.code != Active
    {
      match FirstIndex(users, (u: User) => u.login == login && u.state.code == Active)
      case None => None
      case Some(i) => Some(users[i])
    }

    /** With unique logins, Get finds the one row with that login whenever it is Active. */
    lemma GetIsUnique(u: User)
      requires Valid() && u in users && u.state.code == Active
      ensures Get(u.login) == Some(u)
    {
      var r := Get(u.login);
      assert r.Some?;
      var i, j :| 0 <= i < |users| && users[i] == r.value && 0 <= j < |users| && users[j] == u;
      assert i == j;
    }

    /** Create: refuses a second Admin, encodes the password, attaches the User group and the
      * Active state, stamps today's date and inserts unless the login is taken. */
    method Create(request: CreateRequest, salt: Passwords.Key, today: Date)
      returns (newUser: Option<User>, errorMsg: string)
      requires Valid()
      modifies this
      ensures Valid()
      ensures AdminRefused(request, old(users)) ==>
        newUser == None && errorMsg == AdminExistsMessage && users == old(users) && nextId == old(nextId)
      ensures !AdminRefused(request, old(users)) && LoginTaken(old(users), request.login) ==>
        newUser == None && errorMsg == LoginTakenMessage && users == old(users) && nextId == old(nextId)
      ensures !AdminRefused(request, old(users)) && !LoginTaken(old(users), request.login) ==>
        newUser == Some(User.User(old(nextId), request.login,
                                  Passwords.Encrypt(derive, request.password, salt),
                                  today, DefaultGroup, ActiveState)) &&
        errorMsg == "" && users == old(users) + [newUser.value] && nextId == old(nextId) + 1
      ensures newUser.Some? <==> errorMsg == ""
      ensures AdminCount(users) == AdminCount(old(users))
    {
      if request.group.Some? && request.group.value.code == Admin {
        if Any(users, IsAdmin) {
          return None, AdminExistsMessage;
        }
      }
      var password := Passwords.Encrypt(derive, request.password, salt);
      SeedTables();
      var group := SeedGroups[FirstIndex(SeedGroups, IsUserGroup).value];
      var state := SeedStates[FirstIndex(SeedStates, IsActiveState).value];
      var user := User.User(nextId, request.login, password, today, group, state);
      // SaveChanges fails with DbUpdateException exactly when the unique index on Login is hit.
      if Any(users, (u: User) => u.login == request.login) {
        return None, LoginTakenMessage;
      }
      AdminCountAppend(users, user);
      InsertKeepsValid(users, user);
      users := users + [user];
      nextId := nextId + 1;
      newUser, errorMsg := Some(user), "";
    }

    /** Delete: soft-deletes the row with the login, in any state, by setting its state to
      * Blocked; false when no row has the login. */
    method Delete(login: string) returns (deleted: bool)
      requires Valid()
      modifies this
      ensures Valid()
      ensures deleted <==> LoginTaken(old(users), login)
      ensures nextId == old(nextId) && |users| == |old(users)|
      ensures forall i :: 0 <= i < |users| ==>
        users[i] == if old(users)[i].login == login then old(users)[i].(state := BlockedState) else old(users)[i]
      ensures Get(login) == None
      ensures forall u :: u in GetAll() ==> u.login != login
      ensures AdminCount(users) == AdminCount(old(users))
    {
      var found := FirstIndex(users, (u: User) => u.login == login);
      if found.None? {
        return false;
      }
      var i := found.value;
      SeedTables();
      var blocked := SeedStates[FirstIndex(SeedStates, IsBlockedState).value];
      AdminCountSameGroups(users, users[i := users[i].(state := blocked)]);
      SetStateKeepsValid(users, i, blocked);
      users := users[i := users[i].(state := blocked)];
      deleted := true;
    }
  }
}
