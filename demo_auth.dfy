/** The demo authentication provider: a current user and a registry of signed-up
    accounts. Two hard-coded accounts are checked before the registry; sign-up refuses an
    email already in the registry and logs the new account in. */
module DemoAuth {
  import opened Wrappers

  /** The signed-in user, as the pages see it (no password). */
  datatype DemoUser = DemoUser(id: string, email: string, name: string, role: string)

  /** A registry entry, as sign-up stores it. */
  datatype Account = Account(id: string, email: string, password: string, name: string, role: string)

  datatype AuthError =
    | WrongCredentials   // "Email ou mot de passe incorrect"
    | EmailTaken         // "Cet email est déjà utilisé"

  const Admin: DemoUser := DemoUser("1", "admin@ninja.com", "Admin Ninja", "admin")
  const TestUser: DemoUser := DemoUser("2", "user@ninja.com", "Utilisateur Test", "user")

  predicate IsAdminLogin(email: string, password: string)
  {
    email == "admin@ninja.com" && password == "admin123"
  }

  predicate IsTestUserLogin(email: string, password: string)
  {
    email == "user@ninja.com" && password == "user123"
  }

  /** `users.find(u => u.email === email && u.password === password)`, as a position. */
  function FindLogin(users: seq<Account>, email: string, password: string): (r: Option<nat>)
    ensures r.Some? ==> r.value < |users| && users[r.value].email == email && users[r.value].password == password
    ensures r.Some? ==> forall j :: 0 <= j < r.value ==> !(users[j].email == email && users[j].password == password)
    ensures r.None? <==> forall j :: 0 <= j < |users| ==> !(users[j].email == email && users[j].password == password)
  {
    if users == [] then None
    else if users[0].email == email && users[0].password == password then Some(0)
    else
      match FindLogin(users[1..], email, password)
      case None => None
      case Some(i) => Some(i + 1)
  }

  /** The user an account logs in as: everything but the password. */
  function UserOf(a: Account): DemoUser
  {
    DemoUser(a.id, a.email, a.name, a.role)
  }

  /** The outcome of `signIn(email, password)` against a registry. */
  function SignInResult(users: seq<Account>, email: string, password: string): Result<DemoUser, AuthError>
  {
    if IsAdminLogin(email, password) then Ok(Admin)
    else if IsTestUserLogin(email, password) then Ok(TestUser)
    else
      match FindLogin(users, email, password)
      case None => Err(WrongCredentials)
      case Some(i) => Ok(UserOf(users[i]))
  }

  /** Whether the registry holds an account with this email (`users.find(u => u.email === email)`). */
  predicate EmailInUse(users: seq<Account>, email: string)
  {
    exists i :: 0 <= i < |users| && users[i].email == email
  }

  /** The account sign-up stores. */
  function NewAccount(id: string, email: string, password: string, name: string): Account
  {
    Account(id, email, password, name, "user")
  }

  /** The hard-coded credentials log in whatever the registry holds. */
  lemma HardCodedFirst(users: seq<Account>)
    ensures SignInResult(users, "admin@ninja.com", "admin123") == Ok(Admin)
    ensures SignInResult(users, "user@ninja.com", "user123") == Ok(TestUser)
  {
  }

  /** Any other sign-in succeeds exactly when a registry entry matches both the email and
      the password, and then logs in as the first such entry. */
  lemma RegistryFirstMatch(users: seq<Account>, email: string, password: string)
    requires !IsAdminLogin(email, password) && !IsTestUserLogin(email, password)
    ensures SignInResult(users, email, password).Ok? <==>
              exists i :: 0 <= i < |users| && users[i].email == email && users[i].password == password
    ensures SignInResult(users, email, password).Ok? ==>
              exists i :: && 0 <= i < |users| && users[i].email == email && users[i].password == password
                          && (forall j :: 0 <= j < i ==> !(users[j].email == email && users[j].password == password))
                          && SignInResult(users, email, password).value == UserOf(users[i])
  {
  }

  /** Looking up an appended account: earlier entries come first, and the appended one
      is found when no earlier entry matches. */
  lemma {:induction false} FindLoginAppend(users: seq<Account>, a: Account, email: string, password: string)
    requires forall j :: 0 <= j < |users| ==> users[j].email != email
    requires a.email == email && a.password == password
    ensures FindLogin(users + [a], email, password) == Some(|users|)
  {
    if users != [] {
      assert (users + [a])[1..] == users[1..] + [a];
      FindLoginAppend(users[1..], a, email, password);
    }
  }

  /** After a successful sign-up, signing in with the same email and password succeeds;
      it logs in as the new account unless those are hard-coded credentials. */
  lemma SignUpThenSignIn(users: seq<Account>, id: string, email: string, password: string, name: string)
    requires !EmailInUse(users, email)
    ensures var registry := users + [NewAccount(id, email, password, name)];
            && SignInResult(registry, email, password).Ok?
            && (!IsAdminLogin(email, password) && !IsTestUserLogin(email, password) ==>
                  SignInResult(registry, email, password) == Ok(DemoUser(id, email, name, "user")))
  {
    FindLoginAppend(users, NewAccount(id, email, password, name), email, password);
  }

  /** Appending an entry does not change a lookup that already succeeds. */
  lemma {:induction false} FindLoginKept(users: seq<Account>, a: Account, email: string, password: string)
    requires FindLogin(users, email, password).Some?
    ensures FindLogin(users + [a], email, password) == FindLogin(users, email, password)
  {
    if !(users[0].email == email && users[0].password == password) {
      assert (users + [a])[1..] == users[1..] + [a];
      FindLoginKept(users[1..], a, email, password);
    }
  }

  /** A sign-up never changes who an existing login signs in as. */
  lemma SignUpKeepsLogins(users: seq<Account>, a: Account, email: string, password: string)
    requires SignInResult(users, email, password).Ok?
    ensures SignInResult(users + [a], email, password) == SignInResult(users, email, password)
  {
    if !IsAdminLogin(email, password) && !IsTestUserLogin(email, password) {
      FindLoginKept(users, a, email, password);
      var i := FindLogin(users, email, password).value;
      assert (users + [a])[i] == users[i];
    }
  }

  /** The provider's state: the signed-in user and the `demo-users` registry. */
  class AuthProvider {
    var user: Option<DemoUser>
    var users: seq<Account>

    /** The provider as loaded from storage: the saved user, if any, and the registry. */
    constructor (savedUser: Option<DemoUser>, savedUsers: seq<Account>)
      ensures user == savedUser && users == savedUsers
    {
      user := savedUser;
      users := savedUsers;
    }

    /** `signIn`: the hard-coded accounts, then the first registry entry matching both
        email and password; a failure leaves the current user as it was. */
    method SignIn(email: string, password: string) returns (error: Option<AuthError>)
      modifies this
      ensures users == old(users)
      ensures SignInResult(old(users), email, password).Ok? ==>
                user == Some(SignInResult(old(users), email, password).value) && error == None
      ensures SignInResult(old(users), email, password).Err? ==>
                user == old(user) && error == Some(WrongCredentials)
    {
      if IsAdminLogin(email, password) {
        user := Some(Admin);
        return None;
      } else if IsTestUserLogin(email, password) {
        user := Some(TestUser);
        return None;
      }
      var found := FindLogin(users, email, password);
      if found.Some? {
        user := Some(UserOf(users[found.value]));
        return None;
      }
      return Some(WrongCredentials);
    }

    /** `signUp`: refuses an email the registry already holds (the hard-coded accounts are
        not consulted); otherwise appends one `user` account and logs it in. `id` is the
        fresh identifier the provider takes from the clock. */
    method SignUp(email: string, password: string, name: string, id: string) returns (error: Option<AuthError>)
      modifies this
      ensures EmailInUse(old(users), email) ==>
                error == Some(EmailTaken) && users == old(users) && user == old(user)
      ensures !EmailInUse(old(users), email) ==>
                && error == None
                && users == old(users) + [NewAccount(id, email, password, name)]
                && user == Some(DemoUser(id, email, name, "user"))
    {
      if EmailInUse(users, email) {
        return Some(EmailTaken);
      }
      var newUser := NewAccount(id, email, password, name);
      users := users + [newUser];
      user := Some(UserOf(newUser));
      return None;
    }

    /** `signOut`: nobody is signed in afterwards. */
    method SignOut()
      modifies this
      ensures user == None && users == old(users)
    {
      user := None;
    }
  }
}
