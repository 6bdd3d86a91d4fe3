/** The authentication session: a current user that is absent (anonymous),
    the administrator or the regular user, changed only by login and logout
    and mirrored under the 'quizUser' key of local storage. */
module AuthContext {
  import opened Collections

  datatype Role = Admin | RegularUser

  datatype User = User(id: string, name: string, email: string, role: Role)

  const ADMIN_USER: User := User("admin-1", "Admin User", "admin@example.com", Admin)
  const NORMAL_USER: User := User("user-1", "Regular User", "user@example.com", RegularUser)

  /** The two ways login fails: a field left empty, or an unknown pair. */
  datatype LoginError = MissingField | InvalidCredentials

  datatype LoginResult = LoggedIn(user: User) | Rejected(error: LoginError)

  /** The credential check of login: empty fields are refused first, then
      exactly the two demonstration pairs are accepted. */
  function Authenticate(email: string, password: string): (r: LoginResult)
    ensures (email == "" || password == "") <==> r == Rejected(MissingField)
    ensures r == LoggedIn(ADMIN_USER) <==> email == "admin@example.com" && password == "admin"
    ensures r == LoggedIn(NORMAL_USER) <==> email == "user@example.com" && password == "user"
    ensures r.LoggedIn? ==> r.user == ADMIN_USER || r.user == NORMAL_USER
  {
    if email == "" || password == "" then Rejected(MissingField)
    else if email == "admin@example.com" && password == "admin" then LoggedIn(ADMIN_USER)
    else if email == "user@example.com" && password == "user" then LoggedIn(NORMAL_USER)
    else Rejected(InvalidCredentials)
  }

  /** Every pair other than the two demonstration pairs is refused, as a
      missing field or as invalid credentials. */
  lemma OnlyDemoPairsLogIn(email: string, password: string)
    requires !(email == "admin@example.com" && password == "admin")
    requires !(email == "user@example.com" && password == "user")
    ensures Authenticate(email, password).Rejected?
    ensures email != "" && password != "" ==> Authenticate(email, password) == Rejected(InvalidCredentials)
  {
  }

  /** `user?.role === 'admin'`. */
  predicate IsAdminUser(user: Option<User>)
    ensures IsAdminUser(user) ==> user.Some? && user.value != NORMAL_USER
  {
    user.Some? && user.value.role == Admin
  }

  /** A successful credential check grants administrator rights exactly for
      the admin pair, and otherwise yields the regular account. */
  lemma LoginGrantsRole(email: string, password: string)
    ensures Authenticate(email, password).LoggedIn? ==>
      (IsAdminUser(Some(Authenticate(email, password).user)) <==>
         email == "admin@example.com" && password == "admin")
    ensures Authenticate(email, password).LoggedIn? && !IsAdminUser(Some(Authenticate(email, password).user)) ==>
      Authenticate(email, password).user == NORMAL_USER
  {
  }

  class AuthProvider {
    /** The current user; None when anonymous. */
    var user: Option<User>
    /** The 'quizUser' key; None while absent. */
    var storedUser: Option<User>

    /** Restore on mount: a stored session becomes the current user. */
    constructor (storedUser: Option<User>)
      ensures user == storedUser && this.storedUser == storedUser
    {
      user := storedUser;
      this.storedUser := storedUser;
    }

    /** login: on success the user becomes current and is stored; on failure
        the error is thrown and neither the user nor the stored session changes. */
    method Login(email: string, password: string) returns (thrown: Option<LoginError>)
      modifies this
      ensures Authenticate(email, password).LoggedIn? ==>
                thrown.None? && user == Some(Authenticate(email, password).user) && storedUser == user
      ensures Authenticate(email, password).Rejected? ==>
                thrown == Some(Authenticate(email, password).error) &&
                user == old(user) && storedUser == old(storedUser)
    {
      if email == "" || password == "" {
        return Some(MissingField);
      }
      if email == "admin@example.com" && password == "admin" {
        user := Some(ADMIN_USER);
        storedUser := Some(ADMIN_USER);
        thrown := None;
      } else if email == "user@example.com" && password == "user" {
        user := Some(NORMAL_USER);
        storedUser := Some(NORMAL_USER);
        thrown := None;
      } else {
        thrown := Some(InvalidCredentials);
      }
    }

    /** logout: anonymous again, the stored session removed; a second call
        finds nothing left to change. */
    method Logout()
      modifies this
      ensures user.None? && storedUser.None?
    {
      user := None;
      storedUser := None;
    }

    /** isAdmin. */
    function IsAdmin(): (r: bool)
      reads this
      ensures r <==> user.Some? && user.value.role == Admin
    {
      IsAdminUser(user)
    }

    /** isAuthenticated: `!!user`. */
    function IsAuthenticated(): (r: bool)
      reads this
      ensures r <==> user.Some?
      ensures IsAdmin() ==> r
    {
      user.Some?
    }
  }
}
