/**
  The login gate: two session fields, `logged_in` and `username`, set by a
  successful credential check and cleared by logout.
 */
module Session {
  import opened Users

  class LoginSession {
    var loggedIn: bool
    var username: string

    /** Whoever is logged in is a known user; nobody logged in means an
        empty user name. Under it the sidebar's lookup of the user's display
        name cannot fail. */
    ghost predicate Valid(users: map<string, User>)
      reads this
    {
      (loggedIn ==> username in users) && (!loggedIn ==> username == "")
    }

    /** A fresh session: logged out, no user name. */
    constructor ()
      ensures !loggedIn && username == ""
    {
      loggedIn := false;
      username := "";
    }

    /** The "Entrar" button: the login form is only shown while logged out.
        Success iff the user is known and the typed password is the stored
        one; on failure the session is left as it was. */
    method Login(users: map<string, User>, typedUser: string, typedPassword: string) returns (ok: bool)
      requires Valid(users) && !loggedIn
      modifies this
      ensures ok <==> typedUser in users && users[typedUser].password == typedPassword
      ensures ok ==> loggedIn && username == typedUser
      ensures !ok ==> loggedIn == old(loggedIn) && username == old(username)
      ensures loggedIn == ok
      ensures Valid(users)
    {
      ok := typedUser in users && users[typedUser].password == typedPassword;
      if ok {
        loggedIn := true;
        username := typedUser;
      }
    }

    /** The sidebar's "Logout" button. */
    method Logout()
      modifies this
      ensures !loggedIn && username == ""
      ensures forall users: map<string, User> :: Valid(users)
    {
      loggedIn := false;
      username := "";
    }

    /** The display name shown in the sidebar once logged in. */
    function DisplayName(users: map<string, User>): (name: string)
      reads this
      requires Valid(users) && loggedIn
      ensures username in users && name == users[username].name
    {
      users[username].name
    }
  }
}
