/** The users table `(username, password, role, team)`, as far as the
    availability logic reads it, and registration's duplicate-name check. */
module Users {

  datatype Role = Employee | Manager

  /** A row of the users table without its password. */
  datatype User = User(username: string, role: Role, team: string)

  /** `check_duplicate_user`: the name is already in the table. */
  predicate IsTaken(users: seq<User>, username: string) {
    exists i | 0 <= i < |users| :: users[i].username == username
  }

  /** No two rows share a username. */
  ghost predicate UniqueNames(users: seq<User>) {
    forall i, j | 0 <= i < j < |users| :: users[i].username != users[j].username
  }

  /** What the "Register" button reports. */
  datatype RegisterResult = Registered | UsernameTaken

  class UserDirectory {
    var users: seq<User>

    /** The empty table `load_user_data` starts from when no file exists. */
    constructor ()
      ensures users == []
      ensures UniqueNames(users)
    {
      users := [];
    }

    /** Register a user, refusing a name that is already taken. */
    method Register(username: string, role: Role, team: string) returns (res: RegisterResult)
      modifies this
      ensures IsTaken(old(users), username) ==> res == UsernameTaken && users == old(users)
      ensures !IsTaken(old(users), username) ==>
        res == Registered && users == old(users) + [User(username, role, team)]
      ensures IsTaken(users, username)
      ensures UniqueNames(old(users)) ==> UniqueNames(users)
    {
      if IsTaken(users, username) {
        return UsernameTaken;
      }
      users := users + [User(username, role, team)];
      assert users[|users| - 1].username == username;
      res := Registered;
    }
  }
}
