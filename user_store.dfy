/**
 * The user table behind the user repository, as far as sign-up uses it: rows keyed
 * by a generated primary key, the two existence queries, and save.
 */
module UserStore {

  /** A user account as sign-up stores it: the password is already encoded. */
  datatype User = User(username: string, email: string, password: string)

  datatype UserTable = UserTable(users: map<int, User>, nextId: int) {

    /** Keys come from the identity column: each lies below the next key to be handed out. */
    ghost predicate Valid()
    {
      nextId >= 1 && forall k :: k in users ==> 1 <= k < nextId
    }

    /** existsByUsername */
    predicate ExistsByUsername(username: string)
    {
      exists k :: k in users && users[k].username == username
    }

    /** existsByEmail */
    predicate ExistsByEmail(email: string)
    {
      exists k :: k in users && users[k].email == email
    }

    /** save of a new user: inserted under the next key, every existing row kept. */
    function Save(u: User): (r: UserTable)
      requires Valid()
      ensures r.Valid()
      ensures r.users.Keys == users.Keys + {nextId} && nextId !in users
      ensures r.users[nextId] == u
      ensures forall k :: k in users ==> r.users[k] == users[k]
      ensures |r.users| == |users| + 1
    {
      UserTable(users[nextId := u], nextId + 1)
    }
  }

  /** No two rows share a username, and no two rows share an email. */
  ghost predicate Unique(users: map<int, User>)
  {
    && (forall i, j :: i in users && j in users && users[i].username == users[j].username ==> i == j)
    && (forall i, j :: i in users && j in users && users[i].email == users[j].email ==> i == j)
  }

  /** The repository object: the user table, updated in place by save. */
  class UserRepository {
    var users: map<int, User>
    var nextId: int

    function Table(): UserTable
      reads this
    {
      UserTable(users, nextId)
    }

    ghost predicate Valid()
      reads this
    {
      Table().Valid()
    }

    /** An empty table whose identity column starts at 1. */
    constructor ()
      ensures Valid() && users == map[] && nextId == 1
    {
      users := map[];
      nextId := 1;
    }

    method Save(u: User)
      requires Valid()
      modifies this
      ensures Valid()
      ensures Table() == old(Table()).Save(u)
    {
      users := users[nextId := u];
      nextId := nextId + 1;
    }
  }

}
