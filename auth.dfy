/** Login and registration of src/components/Auth.tsx over the `users` map kept in
    storage (username to password), and the form state around them. */
module Auth {
  import opened Wrappers

  datatype AuthError = MissingCredentials | WrongCredentials | UsernameTaken

  /** The message the form shows for each error. */
  function ErrorMessage(e: AuthError): (m: string)
    ensures m != ""
  {
    match e
    case MissingCredentials => "الرجاء إدخال اسم المستخدم وكلمة المرور."
    case WrongCredentials => "اسم المستخدم أو كلمة المرور غير صحيحة."
    case UsernameTaken => "اسم المستخدم هذا مسجل بالفعل."
  }

  /** What a submission ends in: an error, or a signed-in user with the users map as it is
      stored afterwards. */
  datatype AuthOutcome = Failed(error: AuthError) | LoggedIn(username: string, users: map<string, string>)

  /** `users[username]` is truthy: the name has an entry and it is not the empty string. */
  predicate Registered(users: map<string, string>, username: string) {
    username in users && users[username] != ""
  }

  /** The login branch: the entry exists and equals the password. */
  function Login(users: map<string, string>, username: string, password: string): AuthOutcome {
    if Registered(users, username) && users[username] == password then LoggedIn(username, users)
    else Failed(WrongCredentials)
  }

  /** The registration branch: a taken name is refused; otherwise the entry is added and the
      user is signed in. */
  function Register(users: map<string, string>, username: string, password: string): AuthOutcome {
    if Registered(users, username) then Failed(UsernameTaken)
    else LoggedIn(username, users[username := password])
  }

  /** `handleSubmit`: both fields are required, then the current view decides. */
  function Submit(isLoginView: bool, users: map<string, string>, username: string, password: string): AuthOutcome {
    if username == "" || password == "" then Failed(MissingCredentials)
    else if isLoginView then Login(users, username, password)
    else Register(users, username, password)
  }

  /** An empty field is refused before the store is looked at. */
  lemma SubmitMissing(isLoginView: bool, users: map<string, string>, username: string, password: string)
    ensures Submit(isLoginView, users, username, password) == Failed(MissingCredentials)
      <==> username == "" || password == ""
  {
  }

  /** Login succeeds exactly when both fields are filled in and the stored password of the
      name is the one given; it never changes the store. */
  lemma LoginIff(users: map<string, string>, username: string, password: string)
    ensures Submit(true, users, username, password).LoggedIn? <==>
      username != "" && password != "" && username in users && users[username] == password
    ensures Submit(true, users, username, password).LoggedIn? ==>
      Submit(true, users, username, password) == LoggedIn(username, users)
  {
  }

  /** Registration is refused, leaving the store alone, exactly for a name that already
      has a password; otherwise it adds exactly that one entry and signs the user in. */
  lemma RegisterFacts(users: map<string, string>, username: string, password: string)
    requires username != "" && password != ""
    ensures Submit(false, users, username, password) == Failed(UsernameTaken) <==> Registered(users, username)
    ensures !Registered(users, username) ==>
      var r := Submit(false, users, username, password);
      && r.LoggedIn? && r.username == username
      && username in r.users && r.users[username] == password
      && (forall v :: v != username ==> (v in r.users <==> v in users))
      && (forall v :: v != username && v in users ==> r.users[v] == users[v])
  {
  }

  /** After a successful registration, logging in with the same name and password
      succeeds against the stored map. */
  lemma RegisterThenLogin(users: map<string, string>, username: string, password: string)
    requires Submit(false, users, username, password).LoggedIn?
    ensures var stored := Submit(false, users, username, password).users;
      Submit(true, stored, username, password) == LoggedIn(username, stored)
  {
    var stored := Submit(false, users, username, password).users;
    assert stored == users[username := password];
  }

  // ---------------------------------------------------------------------------------
  // The lookup as written: through the object's prototype
  // ---------------------------------------------------------------------------------

  /** The names every plain object inherits from `Object.prototype`. */
  const InheritedNames: set<string> := {
    "constructor", "hasOwnProperty", "isPrototypeOf", "propertyIsEnumerable",
    "toLocaleString", "toString", "valueOf", "__proto__",
    "__defineGetter__", "__defineSetter__", "__lookupGetter__", "__lookupSetter__"
  }

  /** What `users[username]` yields on the parsed object: the own entry if there is one,
      else an inherited built-in (a function or the prototype object, both truthy and
      never equal to a string), else `undefined`. */
  datatype Property = Own(password: string) | Builtin | Undefined

  function LookupAsWritten(users: map<string, string>, username: string): Property {
    if username in users then Own(users[username])
    else if username in InheritedNames then Builtin
    else Undefined
  }

  predicate Truthy(p: Property) {
    match p
    case Own(s) => s != ""
    case Builtin => true
    case Undefined => false
  }

  /** `handleSubmit` with the lookup as written. */
  function SubmitAsWritten(isLoginView: bool, users: map<string, string>, username: string, password: string): AuthOutcome {
    var entry := LookupAsWritten(users, username);
    if username == "" || password == "" then Failed(MissingCredentials)
    else if isLoginView then
      (if Truthy(entry) && entry == Own(password) then LoggedIn(username, users) else Failed(WrongCredentials))
    else if Truthy(entry) then Failed(UsernameTaken)
    else LoggedIn(username, users[username := password])
  }

  /** As written, a name such as `constructor` that no one has registered is reported as
      taken and can never log in, while the own-entry reading registers it. For every other
      name the two readings agree. */
  lemma InheritedNameLockedOut(users: map<string, string>, username: string, password: string)
    requires username in InheritedNames && username !in users && password != ""
    ensures SubmitAsWritten(false, users, username, password) == Failed(UsernameTaken)
    ensures SubmitAsWritten(true, users, username, password) == Failed(WrongCredentials)
    ensures Submit(false, users, username, password) == LoggedIn(username, users[username := password])
  {
  }

  lemma AsWrittenAgreesElsewhere(isLoginView: bool, users: map<string, string>, username: string, password: string)
    requires username !in InheritedNames || username in users
    ensures SubmitAsWritten(isLoginView, users, username, password) == Submit(isLoginView, users, username, password)
  {
  }

  // ---------------------------------------------------------------------------------
  // The form
  // ---------------------------------------------------------------------------------

  /** The form's state and the `users` entry of storage. */
  class AuthForm {
    var isLoginView: bool
    var username: string
    var password: string
    var error: string
    var users: map<string, string>

    /** A fresh form over what storage holds (`'{}'` when nothing). */
    constructor(stored: map<string, string>)
      ensures isLoginView && username == "" && password == "" && error == "" && users == stored
    {
      isLoginView := true;
      username := "";
      password := "";
      error := "";
      users := stored;
    }

    /** `handleSubmit`: the error is cleared, then set on failure with the store left as
        it was; on success the store is written and the signed-in user handed over. */
    method HandleSubmit() returns (signedIn: Option<string>)
      modifies this
      ensures var r := Submit(old(isLoginView), old(users), old(username), old(password));
        && (r.Failed? ==> signedIn == None && error == ErrorMessage(r.error) && users == old(users))
        && (r.LoggedIn? ==> signedIn == Some(r.username) && error == "" && users == r.users)
      ensures isLoginView == old(isLoginView) && username == old(username) && password == old(password)
    {
      error := "";
      if username == "" || password == "" {
        error := ErrorMessage(MissingCredentials);
        return None;
      }
      var entry := if username in users then users[username] else "";
      if isLoginView {
        if entry != "" && entry == password {
          signedIn := Some(username);
        } else {
          error := ErrorMessage(WrongCredentials);
          signedIn := None;
        }
      } else {
        if entry != "" {
          error := ErrorMessage(UsernameTaken);
          signedIn := None;
        } else {
          users := users[username := password];
          signedIn := Some(username);
        }
      }
    }

    /** The view switch: login and registration swap and the error is cleared. */
    method ToggleView()
      modifies this
      ensures isLoginView == !old(isLoginView) && error == ""
      ensures username == old(username) && password == old(password) && users == old(users)
    {
      isLoginView := !isLoginView;
      error := "";
    }
  }
}
