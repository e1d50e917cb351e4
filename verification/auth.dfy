/** The user registry behind `registerUser` and `loginUser`
    (Backend/controllers/authController.js).

    Users are never removed by these handlers, so the registry is the
    sequence of users in insertion order and a user's `_id` is its position;
    `findOne({ email })` is modelled as returning the first user with that
    email in that order.
    bcrypt is a `Hasher` passed in: `hash` takes the random salt as an explicit
    argument, and the one property the model relies on is `Sound`, which says
    that `compare` accepts a password against any hash of it. */
module Auth {
  import opened Http
  import opened Text

  datatype User = User(name: string, email: string, passwordHash: string, role: string)

  type Registry = seq<User>

  datatype Hasher = Hasher(hash: (nat, string) -> string, compare: (string, string) -> bool)

  /** `bcrypt.compare(p, await bcrypt.hash(p, rounds))` holds for every salt. */
  ghost predicate Sound(h: Hasher) {
    forall salt, p :: h.compare(p, h.hash(salt, p))
  }

  /** The payload handed to `generateToken`; signing it is not modelled, so the
      token is its payload. */
  datatype Claims = Claims(id: UserId, name: string, email: string, role: string)

  /** The JSON body of a successful register or login. */
  datatype Session = Session(id: UserId, name: string, email: string, role: string, token: Claims)

  datatype Registration = Registration(name: Option<string>, email: Option<string>, password: Option<string>, role: Option<string>)

  datatype Credentials = Credentials(email: Option<string>, password: Option<string>)

  const DefaultRole := "patient"
  const MissingRegistrationFields := "Please provide name, email, and password"
  const MissingCredentials := "Please provide email and password"
  const AlreadyExists := "User already exists"
  const InvalidCredentials := "Invalid email or password"

  /** `email.toLowerCase().trim()`. */
  function NormaliseEmail(email: string): (r: string)
    ensures r == Lower(Trim(email))
  {
    LowerTrimCommute(email);
    Trim(Lower(email))
  }

  /** Normalising an email twice is normalising it once. */
  lemma NormaliseEmailIdempotent(email: string)
    ensures NormaliseEmail(NormaliseEmail(email)) == NormaliseEmail(email)
  {
    var n := NormaliseEmail(email);
    assert n == Trim(Lower(email)) by {
      LowerTrimCommute(email);
    }
    assert Lower(n) == n by {
      LowerIdempotent(Trim(email));
    }
    assert Trim(n) == n by {
      TrimIdempotent(Lower(email));
    }
  }

  /** No two users share an email: the registry invariant `registerUser` keeps. */
  predicate UniqueEmails(reg: Registry) {
    forall i, j :: 0 <= i < j < |reg| ==> reg[i].email != reg[j].email
  }

  predicate HasEmail(reg: Registry, email: string) {
    exists i :: 0 <= i < |reg| && reg[i].email == email
  }

  /** `User.findOne({ email })`: the first user, from position `from` on, whose
      email is `email`. */
  function FindByEmail(reg: Registry, email: string, from: nat): (r: Option<UserId>)
    requires from <= |reg|
    ensures r.Some? ==> from <= r.value < |reg| && reg[r.value].email == email
    ensures r.Some? ==> forall j :: from <= j < r.value ==> reg[j].email != email
    ensures r.None? ==> forall j :: from <= j < |reg| ==> reg[j].email != email
    decreases |reg| - from
  {
    if from == |reg| then None
    else if reg[from].email == email then Some(from)
    else FindByEmail(reg, email, from + 1)
  }

  function SessionOf(id: UserId, u: User): Session {
    Session(id, u.name, u.email, u.role, Claims(id, u.name, u.email, u.role))
  }

  /** `registerUser`: validates the raw fields, normalises email and password,
      refuses a taken email, and stores the new user with a hashed password. */
  function Register(reg: Registry, req: Registration, h: Hasher, salt: nat): (out: Handled<Session, Registry>)
    ensures !(Truthy(req.name) && Truthy(req.email) && Truthy(req.password)) ==>
              out == Handled(Fail(400, MissingRegistrationFields), reg)
    ensures Truthy(req.name) && Truthy(req.email) && Truthy(req.password) && HasEmail(reg, NormaliseEmail(req.email.value)) ==>
              out == Handled(Fail(400, AlreadyExists), reg)
    ensures Truthy(req.name) && Truthy(req.email) && Truthy(req.password) && !HasEmail(reg, NormaliseEmail(req.email.value)) ==>
              out.reply.Ok?
    ensures out.reply.Ok? ==>
              && Truthy(req.name) && Truthy(req.email) && Truthy(req.password)
              && !HasEmail(reg, NormaliseEmail(req.email.value))
              && |out.next| == |reg| + 1 && out.next[..|reg|] == reg
              && out.next[|reg|] == User(req.name.value, NormaliseEmail(req.email.value),
                                         h.hash(salt, Trim(req.password.value)),
                                         if Truthy(req.role) then req.role.value else DefaultRole)
              && out.reply == Ok(201, SessionOf(|reg|, out.next[|reg|]))
    ensures out.reply.Fail? ==> out.next == reg && out.reply.status == 400
  {
    if !Truthy(req.name) || !Truthy(req.email) || !Truthy(req.password) then
      Handled(Fail(400, MissingRegistrationFields), reg)
    else
      var email := NormaliseEmail(req.email.value);
      var password := Trim(req.password.value);
      if FindByEmail(reg, email, 0).Some? then
        Handled(Fail(400, AlreadyExists), reg)
      else
        var user := User(req.name.value, email, h.hash(salt, password), OrElse(req.role, DefaultRole));
        Handled(Ok(201, SessionOf(|reg|, user)), reg + [user])
  }

  /** `loginUser`: normalises as `registerUser` does, then answers one and the
      same error whether the email is unknown or the password is wrong. */
  function Login(reg: Registry, req: Credentials, h: Hasher): (r: Reply<Session>)
    ensures !(Truthy(req.email) && Truthy(req.password)) ==> r == Fail(400, MissingCredentials)
    ensures r.Ok? ==>
              && Truthy(req.email) && Truthy(req.password)
              && r.status == 200 && r.body.id < |reg|
              && reg[r.body.id].email == NormaliseEmail(req.email.value)
              && h.compare(Trim(req.password.value), reg[r.body.id].passwordHash)
              && r.body == SessionOf(r.body.id, reg[r.body.id])
    ensures Truthy(req.email) && Truthy(req.password) && r.Fail? ==> r == Fail(400, InvalidCredentials)
  {
    if !Truthy(req.email) || !Truthy(req.password) then
      Fail(400, MissingCredentials)
    else
      var email := NormaliseEmail(req.email.value);
      var password := Trim(req.password.value);
      match FindByEmail(reg, email, 0)
      case None => Fail(400, InvalidCredentials)
      case Some(id) =>
        if !h.compare(password, reg[id].passwordHash) then Fail(400, InvalidCredentials)
        else Ok(200, SessionOf(id, reg[id]))
  }

  /** In a registry with unique emails, a login with both fields present
      succeeds exactly when some user has the normalised email and the hasher
      accepts the trimmed password against that user's hash. */
  lemma LoginSucceedsIff(reg: Registry, req: Credentials, h: Hasher)
    requires UniqueEmails(reg)
    requires Truthy(req.email) && Truthy(req.password)
    ensures Login(reg, req, h).Ok? <==>
              exists i :: 0 <= i < |reg| && reg[i].email == NormaliseEmail(req.email.value)
                          && h.compare(Trim(req.password.value), reg[i].passwordHash)
  {
    var email := NormaliseEmail(req.email.value);
    var found := FindByEmail(reg, email, 0);
    if found.Some? {
      forall i | 0 <= i < |reg| && reg[i].email == email ensures i == found.value {
      }
    }
  }

  /** Registration keeps emails unique. */
  lemma RegisterKeepsEmailsUnique(reg: Registry, req: Registration, h: Hasher, salt: nat)
    requires UniqueEmails(reg)
    ensures UniqueEmails(Register(reg, req, h, salt).next)
  {
    var out := Register(reg, req, h, salt);
    if out.reply.Ok? {
      var next := out.next;
      forall i, j | 0 <= i < j < |next| ensures next[i].email != next[j].email {
        if j == |reg| {
          assert next[i] == reg[i];
        } else {
          assert next[i] == reg[i] && next[j] == reg[j];
        }
      }
    }
  }

  /** A second registration whose email normalises to a registered one is
      refused, however the case and surrounding white space differ, and the
      registry is left as it was. */
  lemma DuplicateEmailRefused(reg: Registry, first: Registration, second: Registration, h: Hasher, salt1: nat, salt2: nat)
    requires Register(reg, first, h, salt1).reply.Ok?
    requires Truthy(second.name) && Truthy(second.email) && Truthy(second.password)
    requires NormaliseEmail(second.email.value) == NormaliseEmail(first.email.value)
    ensures var reg1 := Register(reg, first, h, salt1).next;
            Register(reg1, second, h, salt2) == Handled(Fail(400, AlreadyExists), reg1)
  {
    var reg1 := Register(reg, first, h, salt1).next;
    assert reg1[|reg|].email == NormaliseEmail(second.email.value);
  }

  /** Whatever was registered can be logged into with any spelling of the email
      and password that normalises to the same, and the login answers with the
      very session the registration did. */
  lemma RegisterThenLogin(reg: Registry, req: Registration, h: Hasher, salt: nat, login: Credentials)
    requires Sound(h)
    requires Register(reg, req, h, salt).reply.Ok?
    requires Truthy(login.email) && Truthy(login.password)
    requires NormaliseEmail(login.email.value) == NormaliseEmail(req.email.value)
    requires Trim(login.password.value) == Trim(req.password.value)
    ensures Login(Register(reg, req, h, salt).next, login, h) == Ok(200, Register(reg, req, h, salt).reply.body)
  {
    var out := Register(reg, req, h, salt);
    FoundAfterRegister(reg, out.next, NormaliseEmail(req.email.value));
    assert h.compare(Trim(login.password.value), out.next[|reg|].passwordHash);
  }

  /** After an insertion of a new email, the lookup of that email finds the
      inserted user. */
  lemma FoundAfterRegister(reg: Registry, next: Registry, email: string)
    requires |next| == |reg| + 1 && next[..|reg|] == reg
    requires next[|reg|].email == email && !HasEmail(reg, email)
    ensures FindByEmail(next, email, 0) == Some(|reg|)
  {
  }

  /** A login with an unknown email and a login with a known email but the
      wrong password get the identical reply, so a caller cannot tell which
      emails are registered. */
  lemma LoginFailuresIndistinguishable(reg: Registry, h: Hasher, unknown: Credentials, wrong: Credentials)
    requires Truthy(unknown.email) && Truthy(unknown.password)
    requires !HasEmail(reg, NormaliseEmail(unknown.email.value))
    requires Truthy(wrong.email) && Truthy(wrong.password)
    requires forall i :: 0 <= i < |reg| && reg[i].email == NormaliseEmail(wrong.email.value) ==>
               !h.compare(Trim(wrong.password.value), reg[i].passwordHash)
    ensures Login(reg, unknown, h) == Login(reg, wrong, h) == Fail(400, InvalidCredentials)
  {
  }

  /** The presence check looks at the raw fields, before trimming: an email of
      white space only is present, and the handler passes the empty string to
      `User.create` as the email. */
  lemma BlankEmailRegistersEmpty(reg: Registry, req: Registration, h: Hasher, salt: nat)
    requires Truthy(req.name) && Truthy(req.email) && Truthy(req.password)
    requires AllSpace(req.email.value)
    requires !HasEmail(reg, "")
    ensures var out := Register(reg, req, h, salt);
            out.reply.Ok? && out.next[|reg|].email == ""
  {
    var e := req.email.value;
    assert Trim(e) == [] by {
      TrimUnique(e, [], []);
      assert e + [] + [] == e;
    }
    assert NormaliseEmail(e) == "";
  }
}
