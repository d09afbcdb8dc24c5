# Client authentication of the e-commerce backend, in Dafny

This project models the two authentication endpoints of the backend: `POST /auth/login` and
`POST /auth/register`. It also models the request and response records they use.

- **Client table.** The clients table is a sequence of `Client` rows. Each row has an id, a
  name, a lastname, an e-mail, a nullable password hash, an optional telephone and a
  nullable `is_admin` flag. Ids come from a counter, as from the database's auto-increment
  key. The class `AuthController.ClientStore` holds the rows and the counter.
- **Register.** `ClientStore.Register` is the registration handler. It checks whether the
  address is already in the table, derives the administrator flag from the address, and
  inserts one row. Its postconditions give the whole new state. Its invariant
  (`StoreInvariant`) says that ids and e-mails are unique and that every id is below the
  counter.
- **Login.** `AuthController.Login` is the login handler. It only reads the table, so it is
  a function of the rows. It has two rejection branches: the address is unknown, or the
  stored password is missing, empty or rejected. Both give the same error, 401 with
  "Credenciales inválidas". On success it returns the stored row as an `AuthResponse`.
- **Admin rule.** `AuthController.IsAdminEmail` is the rule `"admin" in email.lower()`. It is
  built from `Text.Lower` and `Text.Contains`.
- **Schemas.** `AuthSchema` holds the request and response records. Their defaults are
  constructor defaults. The request field constraints are validator predicates, and the
  `...RequestErrors` functions list every failing field.

Collaborators outside these files are parameters:
- the password hash, `hash` (a field fixed when the store is built);
- the password check, `verify` (a parameter of `Login`);
- the e-mail format check of the validation library, `isEmail`.

No property of these is assumed unless a lemma states it in its own `requires`.

Three details of the handlers that the model keeps:
- A duplicate registration is answered with 400 and the detail "Este email ya está
  registrado".
- The administrator flag comes from a case-insensitive substring test over the whole
  address.
- A successful login returns the message "Inicio de sesión exitoso". This overrides the
  `AuthResponse` default "Autenticación exitosa".

## Model

| member | source | states |
|---|---|---|
| `Text.Lower` | controllers/auth_controller.py:94 | lower-casing keeps the length and folds every character in place (ASCII letters only) |
| `Text.ContainsIffOccurs` | controllers/auth_controller.py:94 | the `in` test on strings holds exactly when some slice of the string equals the searched one |
| `AuthController.AdminIffMarkerSlice` | controllers/auth_controller.py:93-94 | an address is an administrator's exactly when some five-character slice of it lower-cases to "admin" |
| `AuthController.AdminSelfPromotion` | controllers/auth_controller.py:93-94 | any address that embeds "admin" in any case, anywhere, is made an administrator's |
| `AuthController.AdminIgnoresCase` | controllers/auth_controller.py:94 | the administrator rule gives the same answer for an address and its lower-cased form |
| `AuthController.AdminCheckIsCaseInsensitive` | controllers/auth_controller.py:94 | "Ana.Admin@tienda.com" and "ana.admin@tienda.com" are both administrators' addresses |
| `AuthController.DuplicateCheckIsCaseSensitive` | controllers/auth_controller.py:82-86 | a stored "ana.admin@tienda.com" does not make "Ana.Admin@tienda.com" a duplicate: the lookup, modelled as exact string equality, does not find it |
| `AuthController.FindByEmail` | controllers/auth_controller.py:34-36 | the e-mail query finds nothing exactly when no row has the address; what it finds is a row of the table with exactly that address |
| `AuthController.FindByEmailUnique` | controllers/auth_controller.py:82-84 | when addresses are unique, the query returns the one row that has the address |
| `AuthController.FindByEmailAppend` | controllers/auth_controller.py:106-107 | after one row is added, the query changes only for an address that no earlier row has |
| `AuthController.Login` | controllers/auth_controller.py:19-63 | every failure is 401 "Credenciales inválidas"; an unknown address fails; a success comes from a row with that address whose stored password is present, non-empty and accepted by `verify`, and returns that row's id, names, e-mail and telephone, its flag or false if unset, and the login message |
| `AuthController.LoginSucceedsIff` | controllers/auth_controller.py:38-51 | with unique addresses, login succeeds if and only if the row with the address has a stored password that `verify` accepts |
| `AuthController.ClientStore.Register` | controllers/auth_controller.py:67-119 | a taken address gives 400 "Este email ya está registrado" and leaves the table and counter unchanged; otherwise exactly one row is appended with the request's fields, the hashed password, the derived flag and an id no earlier row has, and the response echoes it; the store invariant (unique ids and e-mails) is kept |
| `AuthController.RegisterThenLogin` | controllers/auth_controller.py:97-107 | after a registration, a login with the same address and password returns the new row with the derived administrator flag, provided `verify` accepts the password against its non-empty hash |
| `AuthController.RegisterLeavesOtherLoginsAlone` | controllers/auth_controller.py:106-107 | a registration does not change the outcome of a login for any other address |
| `AuthController.RegisterTwice` | controllers/auth_controller.py:82-91 | registering the same request twice on an empty table: the first succeeds with id 1, the second gets 400 and the table holds one row |
| `AuthSchema.LoginRequestErrors` | schemas/auth_schema.py:8-11 | a login request is valid exactly when the address passes the e-mail check and the password has at least 4 characters; each failing field is reported |
| `AuthSchema.RegisterRequestErrors` | schemas/auth_schema.py:14-20 | a registration request is valid exactly when name and lastname have 1 to 100 characters, the address passes the e-mail check and the password has at least 4 characters; each failing field is reported |
| `AuthSchema.TelephoneUnconstrained` | schemas/auth_schema.py:20 | the telephone, given or absent, never affects validity |
| `AuthSchema.RegisterRequestDefaults` | schemas/auth_schema.py:20 | a registration request built without a telephone has none |
| `AuthSchema.AuthResponseDefaults` | schemas/auth_schema.py:23-31 | an authentication response defaults to no telephone, not admin, and "Autenticación exitosa" |
| `AuthSchema.RegisterResponseDefaults` | schemas/auth_schema.py:34-41 | a registration response defaults to not admin and "Usuario registrado exitosamente" |

## Left out

- `hash_password` and `verify_password` (utils.auth_utils) are not part of this model. They are uninterpreted function parameters, and no hash scheme is assumed.
- `EmailStr` format checking is not modelled. It comes from the validation library and is the predicate parameter `isEmail`. Any normalisation the library applies to the address happens before the handlers run, so the model's address is the one the handler receives.
- `Text.Lower` folds only ASCII letters, not all of Python's Unicode `str.lower`. Lengths count Dafny characters (Unicode scalar values), as Python's `len` counts code points.
- `AuthController.FindByEmail` returns the earliest matching row in table order, as `.first()` without an ordering may not. The difference is moot under the store invariant, because at most one row has a given address.
- `AuthController.FindByEmail` models the query's `ClientModel.email == request.email` as exact string equality. The database compares with SQL `=`, whose case sensitivity depends on the column collation; collation is not modelled, and under a case-insensitive collation both the duplicate check and the login lookup would ignore case.
- Database session mechanics (query, add, commit, refresh, id generation) are reduced to a sequence of rows and a counter. Storage failures and rollback are not modelled.
- The check-then-insert race between concurrent registrations of the same address is not modelled. The model is sequential.
- The 422 response the web framework sends for a request that fails validation is not modelled. Only the validity predicates and the failing-field lists are.
- Logging, the construction of HTTP exceptions, HTTP transport and the framework's response-model filtering are not modelled. This includes the 201 status a successful registration is sent with; the model's `Success` result stands for it.
- controllers/order_detail_controller.py is not part of this model. It wires routes onto a generic controller, a service and a rate limiter, and none of those are among these files.
- alembic/versions/003_add_image_url_to_products.py is not part of this model. It is a schema migration with no logic.
