/** The request and response bodies of the user endpoints and the checks
    pydantic makes on them before a handler runs. */
module UsuarioSchemas {
  import opened Common
  import opened UsuarioModel

  /** `EmailStr`, approximated: an '@' with at least one character on each
      side. The full address grammar of the email validator is not part of
      this model. */
  predicate IsEmail(s: string) {
    exists i :: 0 < i < |s| - 1 && s[i] == '@'
  }

  /** `UsuarioCreate`: every field of `UsuarioBase` plus `password`. `rol` is
      any string: the five role names appear only in the field's description. */
  datatype UsuarioCreate = UsuarioCreate(
    nombres: string,
    apellidos: string,
    cedula: string,
    username: string,
    email: string,
    telefono: Option<string>,
    direction: Option<string>,
    canton: Option<string>,
    parroquia: Option<string>,
    barrio: Option<string>,
    rol: string,
    password: string)

  predicate CreateValid(c: UsuarioCreate) {
    && Bounded(c.nombres, 1, 100)
    && Bounded(c.apellidos, 1, 100)
    && Bounded(c.cedula, 1, 20)
    && Bounded(c.username, 3, 50)
    && IsEmail(c.email)
    && Bounded(c.password, 6, 128)
  }

  /** `UsuarioUpdate`: only `email`, `telefono` and `direction` can be sent;
      any other key of the body is ignored. */
  datatype UsuarioUpdate = UsuarioUpdate(
    email: Change<Option<string>>,
    telefono: Change<Option<string>>,
    direction: Change<Option<string>>)

  /** `Optional[EmailStr]`: null passes, a string must be an address. */
  predicate UpdateValid(p: UsuarioUpdate) {
    p.email.SetTo? && p.email.value.Some? ==> IsEmail(p.email.value.value)
  }

  /** `UsuarioResponse`: the fields of `UsuarioBase` with `id` and the two
      timestamps. There is no `password` field. */
  datatype UsuarioResponse = UsuarioResponse(
    id: int,
    nombres: string,
    apellidos: string,
    cedula: string,
    username: string,
    email: Option<string>,
    telefono: Option<string>,
    direction: Option<string>,
    canton: Option<string>,
    parroquia: Option<string>,
    barrio: Option<string>,
    rol: string,
    createdAt: Time,
    updatedAt: Time)

  /** The response a stored row is serialised to (`from_attributes`). */
  function ToResponse(u: Usuario): UsuarioResponse {
    UsuarioResponse(u.id, u.nombres, u.apellidos, u.cedula, u.username, u.email,
                    u.telefono, u.direction, u.canton, u.parroquia, u.barrio, u.rol,
                    u.createdAt, u.updatedAt)
  }

  /** The checks `UsuarioBase` makes again when the response is serialised. */
  predicate ResponseValid(r: UsuarioResponse) {
    && Bounded(r.nombres, 1, 100)
    && Bounded(r.apellidos, 1, 100)
    && Bounded(r.cedula, 1, 20)
    && Bounded(r.username, 3, 50)
    && r.email.Some? && IsEmail(r.email.value)
  }

  /** The password never reaches a response: two rows that differ only in
      their password serialise alike. */
  lemma ResponseOmitsPassword(u: Usuario, password: string)
    ensures ToResponse(u.(password := password)) == ToResponse(u)
  {
  }

  /** `rol` is never checked: any string is accepted in its place. */
  lemma RolUnchecked(c: UsuarioCreate, rol: string)
    ensures CreateValid(c.(rol := rol)) == CreateValid(c)
  {
  }
}
