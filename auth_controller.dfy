/** The login and registration handlers over the client table.

    The table is a sequence of client rows; ids are handed out by a counter, as the
    database's auto-increment key does. The password utilities are not part of this
    model: `hash` and `verify` are parameters, and nothing is assumed about them beyond
    what a lemma states in its own `requires`. */
module AuthController {
  import opened Wrappers
  import opened Text
  import opened AuthSchema

  const Unauthorized := 401
  const BadRequest := 400
  const InvalidCredentials := "Credenciales inválidas"
  const EmailAlreadyRegistered := "Este email ya está registrado"
  const LoginSucceeded := "Inicio de sesión exitoso"
  const RegisterSucceeded := "Usuario registrado exitosamente"
  const AdminMarker := "admin"

  /** The error a handler raises: an HTTP status and its detail text. */
  datatype HttpError = HttpError(status: int, detail: string)

  /** One row of the client table. `password` holds the hash and, like `isAdmin`, is a
      nullable column. */
  datatype Client = Client(
    id: int,
    name: string,
    lastname: string,
    email: string,
    password: Option<string>,
    telephone: Option<string>,
    isAdmin: Option<bool>)

  /** The administrator rule: the lower-cased address contains "admin" anywhere. */
  predicate IsAdminEmail(email: string) {
    Contains(Lower(email), AdminMarker)
  }

  /** Some row of the table has exactly this address. */
  ghost predicate EmailTaken(clients: seq<Client>, email: string) {
    exists c :: c in clients && c.email == email
  }

  /** No two rows share an address. */
  ghost predicate UniqueEmails(clients: seq<Client>) {
    forall i, j :: 0 <= i < j < |clients| ==> clients[i].email != clients[j].email
  }

  /** No two rows share an id, and every id is positive and below the next one to hand out. */
  ghost predicate IdsFresh(clients: seq<Client>, nextId: int) {
    1 <= nextId
    && (forall i :: 0 <= i < |clients| ==> 1 <= clients[i].id < nextId)
    && (forall i, j :: 0 <= i < j < |clients| ==> clients[i].id != clients[j].id)
  }

  ghost predicate StoreInvariant(clients: seq<Client>, nextId: int) {
    UniqueEmails(clients) && IdsFresh(clients, nextId)
  }

  /** The query "first client whose email equals `email`", with the comparison taken as
      exact, case-sensitive string equality. */
  function FindByEmail(clients: seq<Client>, email: string): (r: Option<Client>)
    ensures r.None? <==> !EmailTaken(clients, email)
    ensures r.Some? ==> r.value in clients && r.value.email == email
  {
    if clients == [] then None
    else if clients[0].email == email then Some(clients[0])
    else FindByEmail(clients[1..], email)
  }

  /** The stored password is present, non-empty, and accepted by `verify` for the given plaintext. */
  predicate PasswordAccepted(c: Client, password: string, verify: (string, string) -> bool) {
    c.password.Some? && c.password.value != "" && verify(password, c.password.value)
  }

  /** The login handler. It only reads the table. An unknown address and a rejected
      password fail alike, with 401 and the same detail. */
  function Login(clients: seq<Client>, req: LoginRequest, verify: (string, string) -> bool)
    : (r: Result<AuthResponse, HttpError>)
    ensures r.Failure? ==> r.error == HttpError(Unauthorized, InvalidCredentials)
    ensures !EmailTaken(clients, req.email) ==> r.Failure?
    ensures r.Success? ==>
      exists c :: c in clients && c.email == req.email && PasswordAccepted(c, req.password, verify)
        && r.value == AuthResponse(c.id, c.name, c.lastname, c.email, c.telephone,
                                   c.isAdmin.GetOr(false), LoginSucceeded)
  {
    match FindByEmail(clients, req.email)
    case None => Failure(HttpError(Unauthorized, InvalidCredentials))
    case Some(c) =>
      if !PasswordAccepted(c, req.password, verify) then
        Failure(HttpError(Unauthorized, InvalidCredentials))
      else
        Success(AuthResponse(c.id, c.name, c.lastname, c.email, c.telephone,
                             c.isAdmin.GetOr(false), LoginSucceeded))
  }

  /** The row the registration handler inserts for `req`, once the table gives it `id`. */
  function NewClient(id: int, req: RegisterRequest, hash: string -> string): Client {
    Client(id, req.name, req.lastname, req.email, Some(hash(req.password)), req.telephone,
           Some(IsAdminEmail(req.email)))
  }

  /** The client table, as the registration handler changes it. */
  class ClientStore {
    var clients: seq<Client>
    var nextId: int
    const hash: string -> string

    ghost predicate Valid()
      reads this
    {
      StoreInvariant(clients, nextId)
    }

    constructor (hash: string -> string)
      ensures Valid()
      ensures clients == [] && nextId == 1 && this.hash == hash
    {
      clients := [];
      nextId := 1;
      this.hash := hash;
    }

    /** The registration handler. A taken address is refused with 400 and the table is
        left as it was; otherwise exactly one row is appended, under a fresh id. */
    method Register(req: RegisterRequest) returns (r: Result<RegisterResponse, HttpError>)
      requires Valid()
      modifies this
      ensures Valid()
      ensures EmailTaken(old(clients), req.email) ==>
        r == Failure(HttpError(BadRequest, EmailAlreadyRegistered))
        && clients == old(clients) && nextId == old(nextId)
      ensures !EmailTaken(old(clients), req.email) ==>
        clients == old(clients) + [NewClient(old(nextId), req, hash)]
        && nextId == old(nextId) + 1
        && (forall c :: c in old(clients) ==> c.id != old(nextId))
        && r == Success(RegisterResponse(old(nextId), req.name, req.lastname, req.email,
                                         IsAdminEmail(req.email), RegisterSucceeded))
    {
      var existing := FindByEmail(clients, req.email);
      if existing.Some? {
        return Failure(HttpError(BadRequest, EmailAlreadyRegistered));
      }
      var isAdmin := IsAdminEmail(req.email);
      // add + commit: the table assigns the next id and the row becomes visible
      var id := nextId;
      clients := clients + [Client(id, req.name, req.lastname, req.email,
                                   Some(hash(req.password)), req.telephone, Some(isAdmin))];
      nextId := nextId + 1;
      // refresh: read the stored row back
      var stored := clients[|clients| - 1];
      r := Success(RegisterResponse(stored.id, stored.name, stored.lastname, stored.email,
                                    stored.isAdmin.GetOr(false), RegisterSucceeded));
    }
  }

  // ---- The administrator rule ----

  /** The five characters of `email` from position `i` lower-case to "admin". */
  ghost predicate MarkerAt(email: string, i: int) {
    0 <= i && i + |AdminMarker| <= |email| && Lower(email[i..i + |AdminMarker|]) == AdminMarker
  }

  /** An address is an administrator's exactly when some five-character slice of it
      lower-cases to "admin": the rule ignores case and position. */
  lemma AdminIffMarkerSlice(email: string)
    ensures IsAdminEmail(email) <==> exists i :: MarkerAt(email, i)
  {
    ContainsIffOccurs(Lower(email), AdminMarker);
    forall i | 0 <= i && i + |AdminMarker| <= |email|
      ensures MarkerAt(email, i) <==> OccursAt(Lower(email), AdminMarker, i)
    {
      LowerSlice(email, i, i + |AdminMarker|);
    }
  }

  /** Any address that embeds the marker, in any mix of case, anywhere in the local part
      or the domain, is made an administrator. */
  lemma AdminSelfPromotion(prefix: string, marker: string, suffix: string)
    requires Lower(marker) == AdminMarker
    ensures IsAdminEmail(prefix + marker + suffix)
  {
    var email := prefix + marker + suffix;
    LowerConcat(prefix + marker, suffix);
    LowerConcat(prefix, marker);
    assert Lower(email)[|prefix|..|prefix| + |AdminMarker|] == AdminMarker;
    assert OccursAt(Lower(email), AdminMarker, |prefix|);
    ContainsIffOccurs(Lower(email), AdminMarker);
  }

  /** The rule gives the same answer for an address and its lower-cased form. */
  lemma AdminIgnoresCase(email: string)
    ensures IsAdminEmail(Lower(email)) == IsAdminEmail(email)
  {
    LowerIdempotent(email);
  }

  // ---- Lookup by e-mail ----

  /** With unique addresses, the lookup returns the one row that has the address. */
  lemma FindByEmailUnique(clients: seq<Client>, k: int)
    requires UniqueEmails(clients)
    requires 0 <= k < |clients|
    ensures FindByEmail(clients, clients[k].email) == Some(clients[k])
  {
  }

  /** Appending a row changes the lookup only for an address no earlier row has. */
  lemma {:induction false} FindByEmailAppend(clients: seq<Client>, c: Client, email: string)
    ensures FindByEmail(clients + [c], email) ==
      if FindByEmail(clients, email).Some? then FindByEmail(clients, email)
      else if c.email == email then Some(c)
      else None
  {
    if clients == [] {
      assert clients + [c] == [c];
    } else {
      assert (clients + [c])[1..] == clients[1..] + [c];
      FindByEmailAppend(clients[1..], c, email);
    }
  }

  // ---- Login ----

  /** With unique addresses, login succeeds exactly when the row with that address has a
      stored password that `verify` accepts. */
  lemma LoginSucceedsIff(clients: seq<Client>, req: LoginRequest, verify: (string, string) -> bool)
    requires UniqueEmails(clients)
    ensures Login(clients, req, verify).Success? <==>
      exists c :: c in clients && c.email == req.email && PasswordAccepted(c, req.password, verify)
  {
  }

  // ---- Register followed by login ----

  /** After a successful registration, logging in with the same address and password
      returns the new row, with the administrator flag the rule derived from the address,
      provided `verify` accepts the password against the hash `hash` produced for it. */
  lemma RegisterThenLogin(clients: seq<Client>, nextId: int, req: RegisterRequest,
                          hash: string -> string, verify: (string, string) -> bool)
    requires !EmailTaken(clients, req.email)
    requires hash(req.password) != "" && verify(req.password, hash(req.password))
    ensures Login(clients + [NewClient(nextId, req, hash)], LoginRequest(req.email, req.password), verify)
      == Success(AuthResponse(nextId, req.name, req.lastname, req.email, req.telephone,
                              IsAdminEmail(req.email), LoginSucceeded))
  {
  }

  /** A registration does not change the outcome of any login for another address. */
  lemma RegisterLeavesOtherLoginsAlone(clients: seq<Client>, nextId: int, req: RegisterRequest,
                                       hash: string -> string, login: LoginRequest,
                                       verify: (string, string) -> bool)
    requires login.email != req.email
    ensures Login(clients + [NewClient(nextId, req, hash)], login, verify) == Login(clients, login, verify)
  {
    FindByEmailAppend(clients, NewClient(nextId, req, hash), login.email);
  }

  /** "Admin" and "admin" both fold to the marker. */
  lemma MarkerSpellings()
    ensures Lower("Admin") == AdminMarker && Lower("admin") == AdminMarker
  {
  }

  /** The duplicate check compares addresses exactly: an address that differs from a
      stored one only in case is not found, so registration accepts it as new. */
  lemma DuplicateCheckIsCaseSensitive()
    ensures FindByEmail([Client(1, "Ana", "Ruiz", "ana.admin@tienda.com", Some("h"), None, Some(true))],
                        "Ana.Admin@tienda.com") == None
  {
  }

  /** The administrator rule folds case: both spellings of that address are administrators'. */
  lemma AdminCheckIsCaseInsensitive()
    ensures IsAdminEmail("Ana.Admin@tienda.com") && IsAdminEmail("ana.admin@tienda.com")
  {
    MarkerSpellings();
    assert "Ana.Admin@tienda.com" == "Ana." + "Admin" + "@tienda.com";
    AdminSelfPromotion("Ana.", "Admin", "@tienda.com");
    assert "ana.admin@tienda.com" == "ana." + "admin" + "@tienda.com";
    AdminSelfPromotion("ana.", "admin", "@tienda.com");
  }

  /** Registering the same request twice on an empty table: the first call succeeds, the
      second is refused with 400, and the table holds a single row. */
  method RegisterTwice(hash: string -> string, req: RegisterRequest)
    returns (first: Result<RegisterResponse, HttpError>, second: Result<RegisterResponse, HttpError>, rows: nat)
    ensures first == Success(RegisterResponse(1, req.name, req.lastname, req.email,
                                              IsAdminEmail(req.email), RegisterSucceeded))
    ensures second == Failure(HttpError(BadRequest, EmailAlreadyRegistered))
    ensures rows == 1
  {
    var store := new ClientStore(hash);
    first := store.Register(req);
    assert store.clients[0] in store.clients;
    second := store.Register(req);
    rows := |store.clients|;
  }
}
