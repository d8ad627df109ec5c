/** The `usuarios` table: the shape of a row and the constraints its columns
    declare (primary key, UNIQUE, NOT NULL). */
module UsuarioModel {
  import opened Common

  /** A user row as the ORM object holds it. The NOT NULL columns that no
      update can reach are plain values; `email` is NOT NULL too, but an
      update body may assign it null, which only the commit rejects, so the
      object carries it as an `Option` and `NotNullColumns` states the
      constraint. `telefono`, `direction`, `canton`, `parroquia` and `barrio`
      are nullable columns. `password` is a plain column: what the client sent,
      untransformed. */
  datatype Usuario = Usuario(
    id: int,
    nombres: string,
    apellidos: string,
    cedula: string,
    username: string,
    password: string,
    email: Option<string>,
    telefono: Option<string>,
    direction: Option<string>,
    canton: Option<string>,
    parroquia: Option<string>,
    barrio: Option<string>,
    rol: string,
    createdAt: Time,
    updatedAt: Time)

  /** The primary key of a row. */
  function IdOf(u: Usuario): int {
    u.id
  }

  predicate IdsSerial(us: seq<Usuario>, nextId: int) {
    KeysSerial(us, IdOf, nextId)
  }

  /** UNIQUE on `cedula`, `username` and `email`. */
  predicate UniqueColumns(us: seq<Usuario>) {
    forall i, j :: 0 <= i < |us| && 0 <= j < |us| && i != j ==>
      && us[i].cedula != us[j].cedula
      && us[i].username != us[j].username
      && us[i].email != us[j].email
  }

  /** NOT NULL on `email` (the other NOT NULL columns are not optional in the row type). */
  predicate NotNullColumns(us: seq<Usuario>) {
    forall i :: 0 <= i < |us| ==> us[i].email.Some?
  }

  predicate Constraints(us: seq<Usuario>, nextId: int) {
    IdsSerial(us, nextId) && UniqueColumns(us) && NotNullColumns(us)
  }

  function Ids(us: seq<Usuario>): set<int> {
    Keys(us, IdOf)
  }

  /** `select(Usuario).where(Usuario.id == id)`, as a position in the table. */
  function IndexOfId(us: seq<Usuario>, id: int): (r: Option<nat>)
    ensures r.Some? ==> r.value < |us| && us[r.value].id == id
    ensures r.None? <==> id !in Ids(us)
  {
    IndexOfKey(us, IdOf, id)
  }

  /** The checks the database makes when `row` replaces `us[i]` at commit:
      NOT NULL on `email` and UNIQUE against every other row. */
  predicate RowAccepted(us: seq<Usuario>, i: nat, row: Usuario) {
    && row.email.Some?
    && forall j :: 0 <= j < |us| && j != i ==>
         us[j].cedula != row.cedula && us[j].username != row.username && us[j].email != row.email
  }

  /** A row the commit accepts keeps the table's constraints, provided it keeps its id. */
  lemma ReplaceKeepsConstraints(us: seq<Usuario>, nextId: int, i: nat, row: Usuario)
    requires Constraints(us, nextId) && i < |us|
    requires row.id == us[i].id && RowAccepted(us, i, row)
    ensures Constraints(us[i := row], nextId)
    ensures Ids(us[i := row]) == Ids(us)
  {
    ReplaceKeys(us, IdOf, i, row);
  }

  /** A row with a fresh id whose unique values no existing row holds keeps
      the table's constraints when appended. */
  lemma AppendKeepsConstraints(us: seq<Usuario>, nextId: int, row: Usuario)
    requires Constraints(us, nextId)
    requires row.id == nextId && row.email.Some?
    requires forall u :: u in us ==>
      u.cedula != row.cedula && u.username != row.username && u.email != row.email
    ensures Constraints(us + [row], nextId + 1)
    ensures Ids(us + [row]) == Ids(us) + {nextId}
  {
    AppendKeys(us, IdOf, row);
    var vs := us + [row];
    forall i, j | 0 <= i < |vs| && 0 <= j < |vs| && i != j
      ensures vs[i].cedula != vs[j].cedula && vs[i].username != vs[j].username && vs[i].email != vs[j].email
    {
      if i == |us| {
        assert vs[j] == us[j] && us[j] in us;
      } else if j == |us| {
        assert vs[i] == us[i] && us[i] in us;
      }
    }
  }

  /** Removing the row at `i` keeps the constraints and drops exactly its id. */
  lemma RemoveKeepsConstraints(us: seq<Usuario>, nextId: int, i: nat)
    requires Constraints(us, nextId) && i < |us|
    ensures Constraints(RemoveAt(us, i), nextId)
    ensures Ids(RemoveAt(us, i)) == Ids(us) - {us[i].id}
  {
    var vs := RemoveAt(us, i);
    forall a, b | 0 <= a < b < |vs| ensures vs[a].id < vs[b].id {
      assert vs[a] == us[if a < i then a else a + 1];
      assert vs[b] == us[if b < i then b else b + 1];
    }
    forall a, b | 0 <= a < |vs| && 0 <= b < |vs| && a != b
      ensures vs[a].cedula != vs[b].cedula && vs[a].username != vs[b].username && vs[a].email != vs[b].email
    {
      assert vs[a] == us[if a < i then a else a + 1];
      assert vs[b] == us[if b < i then b else b + 1];
    }
    RemoveKeys(us, IdOf, nextId, i);
  }
}
