/** Request and response records of the authentication endpoints, with the field
    constraints the request records declare and the defaults the response records carry.
    The e-mail format check (`EmailStr`) belongs to a validation library; it is taken as
    a parameter `isEmail`, and nothing is assumed about it. */
module AuthSchema {
  import opened Wrappers

  const MinPasswordLength := 4
  const MinNameLength := 1
  const MaxNameLength := 100
  const DefaultAuthMessage := "Autenticación exitosa"
  const DefaultRegisterMessage := "Usuario registrado exitosamente"

  datatype LoginRequest = LoginRequest(email: string, password: string)

  /** `telephone` is optional and absent unless given. */
  datatype RegisterRequest = RegisterRequest(
    name: string,
    lastname: string,
    email: string,
    password: string,
    telephone: Option<string> := None)

  datatype AuthResponse = AuthResponse(
    id: int,
    name: string,
    lastname: string,
    email: string,
    telephone: Option<string> := None,
    isAdmin: bool := false,
    message: string := DefaultAuthMessage)

  /** Unlike `AuthResponse`, there is no telephone field. */
  datatype RegisterResponse = RegisterResponse(
    id: int,
    name: string,
    lastname: string,
    email: string,
    isAdmin: bool := false,
    message: string := DefaultRegisterMessage)

  /** The request fields that carry a constraint; `telephone` has none. */
  datatype Field = Name | Lastname | Email | Password

  predicate NameLengthOk(s: string) {
    MinNameLength <= |s| <= MaxNameLength
  }

  predicate PasswordLengthOk(s: string) {
    |s| >= MinPasswordLength
  }

  predicate ValidLoginRequest(r: LoginRequest, isEmail: string -> bool) {
    isEmail(r.email) && PasswordLengthOk(r.password)
  }

  predicate ValidRegisterRequest(r: RegisterRequest, isEmail: string -> bool) {
    NameLengthOk(r.name) && NameLengthOk(r.lastname) && isEmail(r.email) && PasswordLengthOk(r.password)
  }

  /** The fields a login request is rejected for, in declaration order; every failing
      field is reported, not only the first. */
  function LoginRequestErrors(r: LoginRequest, isEmail: string -> bool): (errs: seq<Field>)
    ensures errs == [] <==> ValidLoginRequest(r, isEmail)
    ensures Email in errs <==> !isEmail(r.email)
    ensures Password in errs <==> |r.password| < MinPasswordLength
    ensures Name !in errs && Lastname !in errs
  {
    (if isEmail(r.email) then [] else [Email])
    + (if PasswordLengthOk(r.password) then [] else [Password])
  }

  /** The fields a registration request is rejected for, in declaration order. */
  function RegisterRequestErrors(r: RegisterRequest, isEmail: string -> bool): (errs: seq<Field>)
    ensures errs == [] <==> ValidRegisterRequest(r, isEmail)
    ensures Name in errs <==> (|r.name| < MinNameLength || |r.name| > MaxNameLength)
    ensures Lastname in errs <==> (|r.lastname| < MinNameLength || |r.lastname| > MaxNameLength)
    ensures Email in errs <==> !isEmail(r.email)
    ensures Password in errs <==> |r.password| < MinPasswordLength
  {
    (if NameLengthOk(r.name) then [] else [Name])
    + (if NameLengthOk(r.lastname) then [] else [Lastname])
    + (if isEmail(r.email) then [] else [Email])
    + (if PasswordLengthOk(r.password) then [] else [Password])
  }

  /** The telephone never makes a registration request invalid, whether given or not. */
  lemma TelephoneUnconstrained(r: RegisterRequest, t: Option<string>, isEmail: string -> bool)
    ensures ValidRegisterRequest(r.(telephone := t), isEmail) == ValidRegisterRequest(r, isEmail)
  {
  }

  /** A registration request built without a telephone has none. */
  lemma RegisterRequestDefaults(name: string, lastname: string, email: string, password: string)
    ensures RegisterRequest(name, lastname, email, password).telephone == None
  {
  }

  /** Defaults of an authentication response built from the four required fields. */
  lemma AuthResponseDefaults(id: int, name: string, lastname: string, email: string)
    ensures var r := AuthResponse(id, name, lastname, email);
      r.telephone == None && !r.isAdmin && r.message == "Autenticación exitosa"
  {
  }

  /** Defaults of a registration response built from the four required fields. */
  lemma RegisterResponseDefaults(id: int, name: string, lastname: string, email: string)
    ensures var r := RegisterResponse(id, name, lastname, email);
      !r.isAdmin && r.message == "Usuario registrado exitosamente"
  {
  }
}
