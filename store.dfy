/**
 * `window.db` and the session (`currentUser` plus the `auth_token` and
 * `unverified_email` slots) as one object, with the form, button and
 * navigation handlers of the application as its methods. Form fields, the
 * answers of `confirm()`/`prompt()`, generated ids and timestamps are
 * parameters.
 */
module Store {
  import opened Wrappers
  import opened Seqs
  import opened Text
  import opened Records
  import opened Routing

  /** Why a handler returned without storing anything: the error toast it shows, or the silent return. */
  datatype Refusal =
    | EmailTaken              // "Email already registered" / "Email already exists"
    | UnknownUserEmail        // "User email must match an existing account"
    | DepartmentHasEmployees  // "Cannot delete department with employees"
    | PasswordRequired        // "Password is required for new accounts"
    | PasswordTooShort        // "Password must be at least 6 characters"
    | OwnAccount              // "Cannot delete your own account"
    | NoItems                 // "Please add at least one item"
    | InvalidCredentials      // "Invalid credentials or email not verified"
    | NotFound                // no account matched; the handler returns silently
    | Cancelled               // confirm() answered false, or prompt() dismissed or left empty

  datatype Outcome = Done | Refused(why: Refusal)

  /** The role the route guard consults: that of the signed-in user, if any. */
  function RoleOf(user: Option<Account>): Option<Role>
  {
    if user.Some? then Some(user.value.role) else None
  }

  /**
   * The session after the stored account with `a`'s id became `a`. In the
   * source `currentUser` is the very object held in `accounts`, so a change to
   * that account is a change to `currentUser`.
   */
  function Refreshed(user: Option<Account>, a: Account): Option<Account>
  {
    if user.Some? && user.value.id == a.id then Some(a) else user
  }

  /** Account ids are non-empty and unique, emails are unique and stored normalised. */
  ghost predicate AccountsValid(accounts: seq<Account>)
  {
    && Keyed(accounts, AccountId)
    && Distinct(accounts, AccountEmail)
    && forall j :: 0 <= j < |accounts| ==> IsNormalized(accounts[j].email)
  }

  /** Request ids are non-empty and unique, and every request has an item. */
  ghost predicate RequestsValid(requests: seq<Request>)
  {
    && Keyed(requests, RequestId)
    && forall j :: 0 <= j < |requests| ==> requests[j].items != []
  }

  lemma AccountsValidAppend(accounts: seq<Account>, a: Account)
    requires AccountsValid(accounts)
    requires Fresh(accounts, AccountId, a.id) && !HasKey(accounts, AccountEmail, a.email)
    requires IsNormalized(a.email)
    ensures AccountsValid(accounts + [a])
  {
    KeyedAppend(accounts, AccountId, a);
    DistinctAppend(accounts, AccountEmail, a);
  }

  lemma AccountsValidUpdate(accounts: seq<Account>, i: nat, a: Account)
    requires AccountsValid(accounts) && i < |accounts| && a.id == accounts[i].id
    requires forall j :: 0 <= j < |accounts| && j != i ==> accounts[j].email != a.email
    requires IsNormalized(a.email)
    ensures AccountsValid(accounts[i := a])
  {
    KeyedUpdate(accounts, AccountId, i, a);
    DistinctUpdate(accounts, AccountEmail, i, a);
  }

  lemma RequestsValidAppend(requests: seq<Request>, q: Request)
    requires RequestsValid(requests) && Fresh(requests, RequestId, q.id) && q.items != []
    ensures RequestsValid(requests + [q])
  {
    KeyedAppend(requests, RequestId, q);
  }

  /** Account ids are unique, so the signed-in account is the stored account with its id. */
  lemma SameIdSameAccount(accounts: seq<Account>, i: nat, user: Option<Account>)
    requires Keyed(accounts, AccountId) && i < |accounts|
    requires user.Some? ==> user.value in accounts
    ensures user.Some? && user.value.id == accounts[i].id ==> user.value == accounts[i]
  {
    if user.Some? && user.value.id == accounts[i].id {
      var j :| 0 <= j < |accounts| && accounts[j] == user.value;
      assert AccountId(accounts[j]) == AccountId(accounts[i]);
    }
  }

  /**
   * The session that `handleAccountForm` leaves behind when the signed-in
   * admin changes their own email: the account is updated and `currentUser`
   * follows it, but the token still holds the old email, so the next
   * `checkAuth` finds no account and signs the user out.
   */
  lemma SelfEmailEditSignsOut()
    ensures var admin := Account("a1", "Admin", "User", "admin@example.com", "Password123!", Admin, true);
      var edited := admin.(email := "boss@example.com");
      && Refreshed(Some(admin), edited) == Some(edited)
      && Restore(Some(admin.email), [edited]) == None
  {
    var admin := Account("a1", "Admin", "User", "admin@example.com", "Password123!", Admin, true);
    var edited := admin.(email := "boss@example.com");
    assert AccountEmail(edited) != admin.email;
  }

  /** The seeded admin email is stored in normalised form. */
  lemma SeedEmailNormalized()
    ensures IsNormalized("admin@example.com")
  {
    var s := "admin@example.com";
    assert forall k :: 0 <= k < |s| ==> 'a' <= s[k] <= 'z' || s[k] == '@' || s[k] == '.';
    assert 'a' !in Spaces && 'm' !in Spaces;
  }

  /** On the seeded store, the documented admin credentials sign in as the seeded admin, whatever case and padding the email is typed with. */
  lemma SeedAdminSignsIn(adminId: string, typed: string)
    requires Normalize(typed) == "admin@example.com"
    ensures var admin := Account(adminId, "Admin", "User", "admin@example.com", "Password123!", Admin, true);
      Credentials([admin], Normalize(typed), "Password123!") == Some(admin)
  {
    var admin := Account(adminId, "Admin", "User", "admin@example.com", "Password123!", Admin, true);
    assert admin in [admin];
  }

  class Db {
    var accounts: seq<Account>
    var departments: seq<Department>
    var employees: seq<Employee>
    var requests: seq<Request>
    /** `currentUser`: the signed-in account, always one of `accounts`. */
    var currentUser: Option<Account>
    /** The `auth_token` slot: the email of the remembered user. */
    var authToken: Option<string>
    /** The `unverified_email` slot: the email awaiting verification. */
    var unverifiedEmail: Option<string>

    /**
     * The integrity rules the handlers keep: ids are non-empty and unique in
     * every list, account emails are unique and stored normalised, every
     * request has an item, and the session's account is a stored account.
     */
    ghost predicate Valid()
      reads this
    {
      && AccountsValid(accounts)
      && Keyed(departments, DepartmentId)
      && Keyed(employees, EmployeeRecordId)
      && RequestsValid(requests)
      && (currentUser.Some? ==> currentUser.value in accounts)
    }

    /**
     * The token names the signed-in account: the next `checkAuth`, which
     * every navigation runs, restores the same session instead of signing
     * the user out.
     */
    ghost predicate SessionRestorable()
      reads this
    {
      currentUser.Some? ==> Restore(authToken, accounts) == currentUser
    }

    /** `currentUser && currentUser.id === id`. */
    predicate IsCurrentUser(id: string)
      reads this
    {
      currentUser.Some? && currentUser.value.id == id
    }

    /** An empty store with nobody signed in. */
    constructor ()
      ensures Valid()
      ensures accounts == [] && departments == [] && employees == [] && requests == []
      ensures currentUser.None? && authToken.None? && unverifiedEmail.None?
    {
      accounts, departments, employees, requests := [], [], [], [];
      currentUser, authToken, unverifiedEmail := None, None, None;
    }

    /**
     * `seedDatabase`: one verified Admin account and the Engineering and HR
     * departments; the three ids are the generated ones.
     */
    constructor Seeded(adminId: string, engineeringId: string, hrId: string)
      requires adminId != "" && engineeringId != "" && hrId != "" && engineeringId != hrId
      ensures Valid()
      ensures accounts == [Account(adminId, "Admin", "User", "admin@example.com", "Password123!", Admin, true)]
      ensures departments == [Department(engineeringId, "Engineering", "Software development team"),
                              Department(hrId, "HR", "Human Resources")]
      ensures employees == [] && requests == []
      ensures currentUser.None? && authToken.None? && unverifiedEmail.None?
    {
      SeedEmailNormalized();
      accounts := [Account(adminId, "Admin", "User", "admin@example.com", "Password123!", Admin, true)];
      departments := [Department(engineeringId, "Engineering", "Software development team"),
                      Department(hrId, "HR", "Human Resources")];
      employees, requests := [], [];
      currentUser, authToken, unverifiedEmail := None, None, None;
    }

    /** `handleRegistration`: refuses a taken email; otherwise appends an unverified account and remembers its email for verification. */
    method Register(firstName: string, lastName: string, email: string, password: string, freshId: string)
      returns (o: Outcome)
      requires Valid() && Fresh(accounts, AccountId, freshId)
      modifies this`accounts, this`unverifiedEmail
      ensures Valid()
      ensures HasKey(old(accounts), AccountEmail, Normalize(email)) ==>
        o == Refused(EmailTaken) && accounts == old(accounts) && unverifiedEmail == old(unverifiedEmail)
      ensures !HasKey(old(accounts), AccountEmail, Normalize(email)) ==>
        && o == Done
        && accounts == old(accounts) + [Account(freshId, Trim(firstName), Trim(lastName), Normalize(email), password, Admin, false)]
        && unverifiedEmail == Some(Normalize(email))
      ensures old(SessionRestorable()) ==> SessionRestorable()
    {
      var e := Normalize(email);
      if HasKey(accounts, AccountEmail, e) {
        return Refused(EmailTaken);
      }
      var a := Account(freshId, Trim(firstName), Trim(lastName), e, password, Admin, false);
      unverifiedEmail := Some(e);
      AppendAccount(a);
      o := Done;
    }

    /** The click handler of the simulated verification: marks the account awaiting verification as verified. */
    method VerifyEmail() returns (o: Outcome)
      requires Valid()
      modifies this`accounts, this`currentUser, this`unverifiedEmail
      ensures Valid()
      ensures old(unverifiedEmail).None? || !HasKey(old(accounts), AccountEmail, old(unverifiedEmail).value) ==>
        && o == Refused(NotFound)
        && accounts == old(accounts) && currentUser == old(currentUser) && unverifiedEmail == old(unverifiedEmail)
      ensures old(unverifiedEmail).Some? && HasKey(old(accounts), AccountEmail, old(unverifiedEmail).value) ==>
        var i := IndexOfKey(old(accounts), AccountEmail, old(unverifiedEmail).value);
        var a := old(accounts)[i].(verified := true);
        && o == Done
        && accounts == old(accounts)[i := a]
        && currentUser == Refreshed(old(currentUser), a)
        && unverifiedEmail.None?
      ensures old(SessionRestorable()) ==> SessionRestorable()
    {
      if unverifiedEmail.None? || !HasKey(accounts, AccountEmail, unverifiedEmail.value) {
        return Refused(NotFound);
      }
      var i := IndexOfKey(accounts, AccountEmail, unverifiedEmail.value);
      var a := accounts[i].(verified := true);
      SameIdSameAccount(accounts, i, currentUser);
      UpdateAccount(i, a);
      unverifiedEmail := None;
      o := Done;
    }

    /**
     * Stores `a` at position `i`, an account with the same id, and keeps
     * `currentUser` the same object as the stored account.
     */
    method UpdateAccount(i: nat, a: Account)
      requires Valid()
      requires i < |accounts| && a.id == accounts[i].id
      requires IsNormalized(a.email)
      requires forall j :: 0 <= j < |accounts| && j != i ==> accounts[j].email != a.email
      modifies this`accounts, this`currentUser
      ensures Valid()
      ensures accounts == old(accounts)[i := a]
      ensures currentUser == Refreshed(old(currentUser), a)
      ensures old(SessionRestorable()) && (old(IsCurrentUser(a.id)) ==> a.verified && a.email == old(currentUser).value.email) ==>
        SessionRestorable()
    {
      ghost var before := accounts;
      AccountsValidUpdate(accounts, i, a);
      accounts := accounts[i := a];
      if currentUser.Some? {
        if currentUser.value.id == a.id {
          assert accounts[i] == a;
        } else {
          ghost var j :| 0 <= j < |before| && before[j] == currentUser.value;
          assert j != i;
          assert accounts[j] == currentUser.value;
        }
      }
      currentUser := Refreshed(currentUser, a);
      if old(SessionRestorable()) && (old(IsCurrentUser(a.id)) ==> a.verified && a.email == old(currentUser).value.email) && currentUser.Some? {
        RestoreFinds(authToken, accounts, currentUser.value);
      }
    }

    /** `accounts.push(a)` for an account with a fresh id and an unused, normalised email. */
    method AppendAccount(a: Account)
      requires Valid()
      requires Fresh(accounts, AccountId, a.id) && !HasKey(accounts, AccountEmail, a.email)
      requires IsNormalized(a.email)
      modifies this`accounts
      ensures Valid()
      ensures accounts == old(accounts) + [a]
      ensures old(SessionRestorable()) ==> SessionRestorable()
    {
      AccountsValidAppend(accounts, a);
      accounts := accounts + [a];
      if old(SessionRestorable()) && currentUser.Some? {
        RestoreFinds(authToken, accounts, currentUser.value);
      }
    }

    /** `requests.push(q)` for a request with a fresh id and at least one item. */
    method AppendRequest(q: Request)
      requires Valid()
      requires Fresh(requests, RequestId, q.id) && q.items != []
      modifies this`requests
      ensures Valid()
      ensures requests == old(requests) + [q]
    {
      RequestsValidAppend(requests, q);
      requests := requests + [q];
    }

    /** `handleLogin`: signs in the first verified account with this email and password, remembering its email. */
    method Login(email: string, password: string) returns (o: Outcome)
      requires Valid()
      modifies this`authToken, this`currentUser
      ensures Valid()
      ensures Credentials(accounts, Normalize(email), password).Some? ==>
        && o == Done
        && authToken == Some(Normalize(email))
        && currentUser == Credentials(accounts, Normalize(email), password)
      ensures Credentials(accounts, Normalize(email), password).None? ==>
        o == Refused(InvalidCredentials) && authToken == old(authToken) && currentUser == old(currentUser)
      ensures o == Done && Normalize(email) != "" ==> SessionRestorable()
    {
      var e := Normalize(email);
      var found := Credentials(accounts, e, password);
      if found.None? {
        return Refused(InvalidCredentials);
      }
      authToken := Some(e);
      currentUser := found;
      if e != "" {
        RestoreFinds(authToken, accounts, found.value);
      }
      o := Done;
    }

    /** `checkAuth`: re-derives the session from the remembered token, clearing it unless the token names a verified account. */
    method CheckAuth() returns (authenticated: bool)
      requires Valid()
      modifies this`currentUser
      ensures Valid()
      ensures currentUser == Restore(authToken, accounts)
      ensures authenticated <==> currentUser.Some?
      ensures SessionRestorable()
    {
      currentUser := Restore(authToken, accounts);
      authenticated := currentUser.Some?;
    }

    /** `logout`: forgets the token and the session. */
    method Logout()
      requires Valid()
      modifies this`authToken, this`currentUser
      ensures Valid()
      ensures authToken.None? && currentUser.None?
      ensures SessionRestorable()
    {
      authToken := None;
      currentUser := None;
    }

    /**
     * `handleRouting`: restores the session, then applies the route guard to
     * the route in the hash. An admin page is shown only to a stored,
     * verified Admin account named by the token.
     */
    method HandleRouting(hash: string, pages: set<string>) returns (d: Decision)
      requires Valid()
      modifies this`currentUser
      ensures Valid()
      ensures currentUser == Restore(authToken, accounts)
      ensures d == Decide(RouteOf(hash), RoleOf(currentUser), pages)
      ensures SessionRestorable()
      ensures d.Show? && d.page in AdminRoutes ==>
        && currentUser.Some? && currentUser.value in accounts && currentUser.value.verified
        && currentUser.value.role == Admin && authToken == Some(currentUser.value.email)
    {
      var authenticated := CheckAuth();
      d := Decide(RouteOf(hash), RoleOf(currentUser), pages);
    }

    /**
     * `handleEmployeeForm`: refuses an email that no account has; otherwise
     * replaces the employee being edited (keeping its id) or appends a new one.
     */
    method SaveEmployee(
      editId: string, employeeId: string, userEmail: string, position: string,
      departmentId: string, hireDate: string, freshId: string)
      returns (o: Outcome)
      requires Valid()
      requires editId != "" ==> HasKey(employees, EmployeeRecordId, editId)
      requires Fresh(employees, EmployeeRecordId, freshId)
      modifies this`employees
      ensures Valid()
      ensures !HasKey(accounts, AccountEmail, Normalize(userEmail)) ==>
        o == Refused(UnknownUserEmail) && employees == old(employees)
      ensures HasKey(accounts, AccountEmail, Normalize(userEmail)) && editId != "" ==>
        var i := IndexOfKey(old(employees), EmployeeRecordId, editId);
        && o == Done
        && employees == old(employees)[i := Employee(editId, Trim(employeeId), Normalize(userEmail), Trim(position), departmentId, hireDate)]
      ensures HasKey(accounts, AccountEmail, Normalize(userEmail)) && editId == "" ==>
        && o == Done
        && employees == old(employees) + [Employee(freshId, Trim(employeeId), Normalize(userEmail), Trim(position), departmentId, hireDate)]
    {
      var email := Normalize(userEmail);
      if !HasKey(accounts, AccountEmail, email) {
        return Refused(UnknownUserEmail);
      }
      if editId != "" {
        var i := IndexOfKey(employees, EmployeeRecordId, editId);
        var e := Employee(employees[i].id, Trim(employeeId), email, Trim(position), departmentId, hireDate);
        KeyedUpdate(employees, EmployeeRecordId, i, e);
        employees := employees[i := e];
      } else {
        var e := Employee(freshId, Trim(employeeId), email, Trim(position), departmentId, hireDate);
        KeyedAppend(employees, EmployeeRecordId, e);
        employees := employees + [e];
      }
      o := Done;
    }

    /** `deleteEmployee`: once confirmed, removes the employee with this id. */
    method DeleteEmployee(id: string, confirmed: bool) returns (o: Outcome)
      requires Valid()
      modifies this`employees
      ensures Valid()
      ensures !confirmed ==> o == Refused(Cancelled) && employees == old(employees)
      ensures confirmed ==> o == Done && employees == Without(old(employees), EmployeeRecordId, id)
    {
      if !confirmed {
        return Refused(Cancelled);
      }
      WithoutKeyed(employees, EmployeeRecordId, id, EmployeeRecordId);
      employees := Without(employees, EmployeeRecordId, id);
      o := Done;
    }

    /** `handleDepartmentForm`: replaces the department being edited (keeping its id) or appends a new one. */
    method SaveDepartment(editId: string, name: string, description: string, freshId: string) returns (o: Outcome)
      requires Valid()
      requires editId != "" ==> HasKey(departments, DepartmentId, editId)
      requires Fresh(departments, DepartmentId, freshId)
      modifies this`departments
      ensures Valid()
      ensures o == Done
      ensures editId != "" ==>
        var i := IndexOfKey(old(departments), DepartmentId, editId);
        departments == old(departments)[i := Department(editId, Trim(name), Trim(description))]
      ensures editId == "" ==> departments == old(departments) + [Department(freshId, Trim(name), Trim(description))]
    {
      if editId != "" {
        var i := IndexOfKey(departments, DepartmentId, editId);
        var d := Department(departments[i].id, Trim(name), Trim(description));
        KeyedUpdate(departments, DepartmentId, i, d);
        departments := departments[i := d];
      } else {
        var d := Department(freshId, Trim(name), Trim(description));
        KeyedAppend(departments, DepartmentId, d);
        departments := departments + [d];
      }
      o := Done;
    }

    /** `deleteDepartment`: refused while an employee belongs to the department; otherwise, once confirmed, removes it. */
    method DeleteDepartment(id: string, confirmed: bool) returns (o: Outcome)
      requires Valid()
      modifies this`departments
      ensures Valid()
      ensures HasKey(employees, EmployeeDepartment, id) ==>
        o == Refused(DepartmentHasEmployees) && departments == old(departments)
      ensures !HasKey(employees, EmployeeDepartment, id) && !confirmed ==>
        o == Refused(Cancelled) && departments == old(departments)
      ensures !HasKey(employees, EmployeeDepartment, id) && confirmed ==>
        o == Done && departments == Without(old(departments), DepartmentId, id)
    {
      if HasKey(employees, EmployeeDepartment, id) {
        return Refused(DepartmentHasEmployees);
      }
      if !confirmed {
        return Refused(Cancelled);
      }
      WithoutKeyed(departments, DepartmentId, id, DepartmentId);
      departments := Without(departments, DepartmentId, id);
      o := Done;
    }

    /**
     * `handleAccountForm`: refuses an email held by an account with another
     * id. An edit keeps the id, and the old password when the field is blank;
     * if it is the signed-in user's account the session follows it. A new
     * account needs a password.
     */
    method SaveAccount(
      editId: string, firstName: string, lastName: string, email: string,
      password: string, role: Role, verified: bool, freshId: string)
      returns (o: Outcome)
      requires Valid()
      requires editId != "" ==> HasKey(accounts, AccountId, editId)
      requires Fresh(accounts, AccountId, freshId)
      modifies this`accounts, this`currentUser
      ensures Valid()
      ensures EmailHeldByOther(old(accounts), Normalize(email), editId) ==>
        o == Refused(EmailTaken) && accounts == old(accounts) && currentUser == old(currentUser)
      ensures !EmailHeldByOther(old(accounts), Normalize(email), editId) && editId != "" ==>
        var i := IndexOfKey(old(accounts), AccountId, editId);
        var a := Account(editId, Trim(firstName), Trim(lastName), Normalize(email),
                         if password != "" then password else old(accounts)[i].password, role, verified);
        && o == Done
        && accounts == old(accounts)[i := a]
        && currentUser == Refreshed(old(currentUser), a)
      ensures !EmailHeldByOther(old(accounts), Normalize(email), editId) && editId == "" && password == "" ==>
        o == Refused(PasswordRequired) && accounts == old(accounts) && currentUser == old(currentUser)
      ensures !EmailHeldByOther(old(accounts), Normalize(email), editId) && editId == "" && password != "" ==>
        && o == Done
        && accounts == old(accounts) + [Account(freshId, Trim(firstName), Trim(lastName), Normalize(email), password, role, verified)]
        && currentUser == old(currentUser)
      // Editing another account, or creating one, leaves the session alone.
      ensures old(SessionRestorable()) && !old(IsCurrentUser(editId)) ==> SessionRestorable()
      // The token is never touched, even when the signed-in user edits their own email.
      ensures authToken == old(authToken)
    {
      var e := Normalize(email);
      if EmailHeldByOther(accounts, e, editId) {
        return Refused(EmailTaken);
      }
      if editId != "" {
        var i := IndexOfKey(accounts, AccountId, editId);
        var existing := accounts[i];
        var a := Account(existing.id, Trim(firstName), Trim(lastName), e,
                         if password != "" then password else existing.password, role, verified);
        UpdateAccount(i, a);
      } else {
        if password == "" {
          return Refused(PasswordRequired);
        }
        var a := Account(freshId, Trim(firstName), Trim(lastName), e, password, role, verified);
        assert !HasKey(accounts, AccountEmail, e) by {
          assert !EmailHeldByOther(accounts, e, "");
        }
        AppendAccount(a);
      }
      o := Done;
    }

    /**
     * `handleAccountForm` as evidently intended: when the signed-in user
     * edits their own account, the token follows the new email, so the
     * session survives the next `checkAuth` as long as the account stays
     * verified.
     */
    method SaveAccountKeepingSession(
      editId: string, firstName: string, lastName: string, email: string,
      password: string, role: Role, verified: bool, freshId: string)
      returns (o: Outcome)
      requires Valid()
      requires editId != "" ==> HasKey(accounts, AccountId, editId)
      requires Fresh(accounts, AccountId, freshId)
      modifies this`accounts, this`currentUser, this`authToken
      ensures Valid()
      ensures o == Done <==> !EmailHeldByOther(old(accounts), Normalize(email), editId) && (editId != "" || password != "")
      ensures o != Done ==> accounts == old(accounts) && currentUser == old(currentUser)
      ensures o == Done && editId != "" ==>
        var i := IndexOfKey(old(accounts), AccountId, editId);
        var a := Account(editId, Trim(firstName), Trim(lastName), Normalize(email),
                         if password != "" then password else old(accounts)[i].password, role, verified);
        accounts == old(accounts)[i := a] && currentUser == Refreshed(old(currentUser), a)
      ensures o == Done && editId == "" ==>
        && accounts == old(accounts) + [Account(freshId, Trim(firstName), Trim(lastName), Normalize(email), password, role, verified)]
        && currentUser == old(currentUser)
      ensures authToken == if o == Done && old(IsCurrentUser(editId)) then Some(Normalize(email)) else old(authToken)
      ensures old(SessionRestorable()) && (old(IsCurrentUser(editId)) ==> verified && Normalize(email) != "") ==>
        SessionRestorable()
    {
      var self := IsCurrentUser(editId);
      o := SaveAccount(editId, firstName, lastName, email, password, role, verified, freshId);
      if o == Done && self {
        authToken := Some(Normalize(email));
        if verified && Normalize(email) != "" {
          RestoreFinds(authToken, accounts, currentUser.value);
        }
      }
    }

    /** `find(acc => acc.email === email && acc.id !== id)` is truthy. */
    static predicate EmailHeldByOther(accounts: seq<Account>, email: string, id: string)
    {
      exists j :: 0 <= j < |accounts| && accounts[j].email == email && accounts[j].id != id
    }

    /**
     * `resetPassword`: a dismissed or empty prompt does nothing; a password
     * shorter than 6 characters is refused; otherwise the account with this
     * id gets the new password.
     */
    method ResetPassword(id: string, answer: Option<string>) returns (o: Outcome)
      requires Valid()
      modifies this`accounts, this`currentUser
      ensures Valid()
      ensures answer.None? || answer.value == "" ==>
        o == Refused(Cancelled) && accounts == old(accounts) && currentUser == old(currentUser)
      ensures answer.Some? && 0 < |answer.value| < 6 ==>
        o == Refused(PasswordTooShort) && accounts == old(accounts) && currentUser == old(currentUser)
      ensures answer.Some? && |answer.value| >= 6 && !HasKey(old(accounts), AccountId, id) ==>
        o == Refused(NotFound) && accounts == old(accounts) && currentUser == old(currentUser)
      ensures answer.Some? && |answer.value| >= 6 && HasKey(old(accounts), AccountId, id) ==>
        var i := IndexOfKey(old(accounts), AccountId, id);
        var a := old(accounts)[i].(password := answer.value);
        && o == Done
        && accounts == old(accounts)[i := a]
        && currentUser == Refreshed(old(currentUser), a)
      ensures old(SessionRestorable()) ==> SessionRestorable()
    {
      if answer.None? || answer.value == "" {
        return Refused(Cancelled);
      }
      var newPassword := answer.value;
      if |newPassword| < 6 {
        return Refused(PasswordTooShort);
      }
      if !HasKey(accounts, AccountId, id) {
        return Refused(NotFound);
      }
      var i := IndexOfKey(accounts, AccountId, id);
      SameIdSameAccount(accounts, i, currentUser);
      UpdateAccount(i, accounts[i].(password := newPassword));
      o := Done;
    }

    /**
     * `deleteAccount`: refused for the signed-in user's own account;
     * otherwise, once confirmed, removes every employee with the account's
     * email and then the account itself.
     */
    method DeleteAccount(id: string, confirmed: bool) returns (o: Outcome)
      requires Valid()
      requires confirmed && !IsCurrentUser(id) ==> HasKey(accounts, AccountId, id)
      modifies this`accounts, this`employees
      ensures Valid()
      ensures old(IsCurrentUser(id)) ==>
        o == Refused(OwnAccount) && accounts == old(accounts) && employees == old(employees)
      ensures !old(IsCurrentUser(id)) && !confirmed ==>
        o == Refused(Cancelled) && accounts == old(accounts) && employees == old(employees)
      ensures !old(IsCurrentUser(id)) && confirmed ==>
        var i := IndexOfKey(old(accounts), AccountId, id);
        && o == Done
        && employees == Without(old(employees), EmployeeEmail, old(accounts)[i].email)
        && accounts == old(accounts)[..i] + old(accounts)[i + 1..]
        && (forall e :: e in employees ==> e.userEmail != old(accounts)[i].email)
      ensures old(SessionRestorable()) ==> SessionRestorable()
    {
      if IsCurrentUser(id) {
        return Refused(OwnAccount);
      }
      if !confirmed {
        return Refused(Cancelled);
      }
      var i := IndexOfKey(accounts, AccountId, id);
      var account := accounts[i];
      WithoutKeyed(employees, EmployeeEmail, account.email, EmployeeRecordId);
      employees := Without(employees, EmployeeEmail, account.email);
      WithoutKeyed(accounts, AccountId, id, AccountId);
      WithoutOne(accounts, AccountId, id);
      FilterDistinct(accounts, x => AccountId(x) != id, AccountEmail);
      accounts := Without(accounts, AccountId, id);
      if old(SessionRestorable()) && currentUser.Some? {
        RestoreFinds(authToken, accounts, currentUser.value);
      }
      o := Done;
    }

    /**
     * `handleRequestForm`: collects the item rows; with none left the request
     * is refused, otherwise a Pending request of the signed-in user is appended.
     */
    method SubmitRequest(kind: string, rows: seq<ItemRow>, date: string, freshId: string) returns (o: Outcome)
      requires Valid()
      requires Fresh(requests, RequestId, freshId)
      requires KeptItems(rows) != [] ==> currentUser.Some?
      modifies this`requests
      ensures Valid()
      ensures KeptItems(rows) == [] ==> o == Refused(NoItems) && requests == old(requests)
      ensures KeptItems(rows) != [] ==>
        && o == Done
        && requests == old(requests) + [Request(freshId, kind, KeptItems(rows), Pending, date, currentUser.value.email)]
    {
      var items := CollectItems(rows);
      if |items| == 0 {
        return Refused(NoItems);
      }
      AppendRequest(Request(freshId, kind, items, Pending, date, currentUser.value.email));
      o := Done;
    }
  }
}
