/** `POST /register`: validate the two body fields, refuse a username that is
    already taken, otherwise append the new user to the registry. The registry
    is the ordered user array, passed in and handed back explicitly. */
module Registration {
  import opened Outcomes

  datatype User = User(username: string, password: string)

  /** A field of the request body: absent (`undefined`) or a string. */
  datatype Field = Absent | Given(text: string)

  /** JavaScript truthiness of a field: present and not the empty string. */
  predicate FieldTruthy(f: Field) {
    f.Given? && |f.text| > 0
  }

  ghost predicate Registered(users: seq<User>, name: string) {
    exists i :: 0 <= i < |users| && users[i].username == name
  }

  ghost predicate UniqueNames(users: seq<User>) {
    forall i, j :: 0 <= i < j < |users| ==> users[i].username != users[j].username
  }

  /** Position `i` holds the first user named `name`. */
  ghost predicate FirstNamed(users: seq<User>, name: string, i: int) {
    0 <= i < |users| && users[i].username == name &&
    forall k :: 0 <= k < i ==> users[k].username != name
  }

  /** `users.find(user => user.username === name)`: the first user whose name
      is exactly (case-sensitively) `name`. */
  function FindUser(users: seq<User>, name: string): (r: Option<User>)
    ensures r.Some? <==> Registered(users, name)
    ensures r.Some? ==> r.value.username == name
    ensures r.Some? ==> exists i :: FirstNamed(users, name, i) && users[i] == r.value
  {
    if |users| == 0 then None
    else if users[0].username == name then
      assert FirstNamed(users, name, 0);
      Some(users[0])
    else
      var r := FindUser(users[1..], name);
      assert forall i :: 1 <= i < |users| ==> users[i] == users[1..][i - 1];
      assert forall i :: FirstNamed(users[1..], name, i) ==> FirstNamed(users, name, i + 1);
      r
  }

  /** The reply of one registration and the registry after it. */
  datatype RegisterResult = RegisterResult(reply: Reply<()>, users: seq<User>)

  /** One atomic registration step. */
  function Register(users: seq<User>, username: Field, password: Field): (out: RegisterResult)
    ensures out.reply.status == BadRequest <==> !FieldTruthy(username) || !FieldTruthy(password)
    ensures out.reply.status == Conflict <==>
              FieldTruthy(username) && FieldTruthy(password) && Registered(users, username.text)
    ensures out.reply.status == OK <==>
              FieldTruthy(username) && FieldTruthy(password) && !Registered(users, username.text)
    ensures out.reply.status == BadRequest ==> out.reply.body == Message(FieldsRequired)
    ensures out.reply.status == Conflict ==> out.reply.body == Message(UsernameTaken)
    ensures out.reply.status == OK ==> out.reply.body == Message(UserRegistered)
    ensures out.reply.status != OK ==> out.users == users
    ensures out.reply.status == OK ==> out.users == users + [User(username.text, password.text)]
  {
    if !FieldTruthy(username) || !FieldTruthy(password) then
      RegisterResult(Reply(BadRequest, Message(FieldsRequired)), users)
    else if FindUser(users, username.text).Some? then
      RegisterResult(Reply(Conflict, Message(UsernameTaken)), users)
    else
      RegisterResult(Reply(OK, Message(UserRegistered)), users + [User(username.text, password.text)])
  }

  /** A registry without duplicate usernames keeps that property across a
      registration. */
  lemma RegisterKeepsNamesUnique(users: seq<User>, username: Field, password: Field)
    requires UniqueNames(users)
    ensures UniqueNames(Register(users, username, password).users)
  {
    var out := Register(users, username, password);
    if out.reply.status == OK {
      forall i, j | 0 <= i < j < |out.users|
        ensures out.users[i].username != out.users[j].username
      {
        if j == |users| {
          assert out.users[i] == users[i];
        }
      }
    }
  }

  /** After a successful registration the same username, with any password,
      is refused with 409 and the registry stays as it is. */
  lemma SecondRegistrationConflicts(users: seq<User>, username: Field, password: Field, password2: Field)
    requires Register(users, username, password).reply.status == OK
    requires FieldTruthy(password2)
    ensures var after := Register(users, username, password).users;
            Register(after, username, password2) == RegisterResult(Reply(Conflict, Message(UsernameTaken)), after)
  {
    var after := Register(users, username, password).users;
    assert after[|users|].username == username.text;
  }

  /** Names are compared case-sensitively: with only `alice` registered,
      `Alice` registers successfully. */
  lemma NamesAreCaseSensitive()
    ensures Register([User("alice", "pw1")], Given("Alice"), Given("pw2")).reply.status == OK
  {
    assert "alice"[0] != "Alice"[0];
  }

  /** One request body. */
  datatype Request = Request(username: Field, password: Field)

  /** The registry after serving a series of registration requests one at a
      time. */
  function RegisterAll(users: seq<User>, requests: seq<Request>): (after: seq<User>)
    ensures |users| <= |after| <= |users| + |requests|
    ensures after[..|users|] == users
    decreases |requests|
  {
    if |requests| == 0 then users
    else
      var next := Register(users, requests[0].username, requests[0].password).users;
      var after := RegisterAll(next, requests[1..]);
      assert after[..|users|] == next[..|users|];
      after
  }

  /** Serving requests one at a time never introduces a duplicate username
      into a registry that had none: the uniqueness the 409 check is meant to
      give. */
  lemma {:induction false} RegisterAllKeepsNamesUnique(users: seq<User>, requests: seq<Request>)
    requires UniqueNames(users)
    ensures UniqueNames(RegisterAll(users, requests))
    decreases |requests|
  {
    if |requests| > 0 {
      RegisterKeepsNamesUnique(users, requests[0].username, requests[0].password);
      RegisterAllKeepsNamesUnique(Register(users, requests[0].username, requests[0].password).users, requests[1..]);
    }
  }
}
