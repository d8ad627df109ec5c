/** The `campeonatos` table: the shape of a row and the constraints its
    columns declare. */
module CampeonatoModel {
  import opened Common

  /** The value the `estado` column takes when an insert supplies none. */
  const EstadoDefault: string := "activo"

  /** A championship row as the ORM object holds it. `nombre` is NOT NULL,
      but an update body may assign it null, which only the commit rejects, so
      the object carries it as an `Option`. Every other column is nullable;
      `estado` too (it has a default, not a NOT NULL constraint). */
  datatype Campeonato = Campeonato(
    id: int,
    nombre: Option<string>,
    descripcion: Option<string>,
    fechaInicio: Option<Time>,
    fechaFin: Option<Time>,
    canton: Option<string>,
    parroquia: Option<string>,
    estado: Option<string>,
    createdAt: Time,
    updatedAt: Time)

  /** The primary key of a row. */
  function IdOf(c: Campeonato): int {
    c.id
  }

  predicate IdsSerial(cs: seq<Campeonato>, nextId: int) {
    KeysSerial(cs, IdOf, nextId)
  }

  /** UNIQUE on `nombre`. */
  predicate UniqueColumns(cs: seq<Campeonato>) {
    forall i, j :: 0 <= i < |cs| && 0 <= j < |cs| && i != j ==> cs[i].nombre != cs[j].nombre
  }

  /** NOT NULL on `nombre`. */
  predicate NotNullColumns(cs: seq<Campeonato>) {
    forall i :: 0 <= i < |cs| ==> cs[i].nombre.Some?
  }

  predicate Constraints(cs: seq<Campeonato>, nextId: int) {
    IdsSerial(cs, nextId) && UniqueColumns(cs) && NotNullColumns(cs)
  }

  function Ids(cs: seq<Campeonato>): set<int> {
    Keys(cs, IdOf)
  }

  /** `select(Campeonato).where(Campeonato.id == id)`, as a position in the table. */
  function IndexOfId(cs: seq<Campeonato>, id: int): (r: Option<nat>)
    ensures r.Some? ==> r.value < |cs| && cs[r.value].id == id
    ensures r.None? <==> id !in Ids(cs)
  {
    IndexOfKey(cs, IdOf, id)
  }

  /** The checks the database makes when `row` replaces `cs[i]` at commit:
      NOT NULL on `nombre` and UNIQUE against every other row. */
  predicate RowAccepted(cs: seq<Campeonato>, i: nat, row: Campeonato) {
    row.nombre.Some? && forall j :: 0 <= j < |cs| && j != i ==> cs[j].nombre != row.nombre
  }

  lemma ReplaceKeepsConstraints(cs: seq<Campeonato>, nextId: int, i: nat, row: Campeonato)
    requires Constraints(cs, nextId) && i < |cs|
    requires row.id == cs[i].id && RowAccepted(cs, i, row)
    ensures Constraints(cs[i := row], nextId)
    ensures Ids(cs[i := row]) == Ids(cs)
  {
    ReplaceKeys(cs, IdOf, i, row);
  }

  lemma AppendKeepsConstraints(cs: seq<Campeonato>, nextId: int, row: Campeonato)
    requires Constraints(cs, nextId)
    requires row.id == nextId && row.nombre.Some?
    requires forall c :: c in cs ==> c.nombre != row.nombre
    ensures Constraints(cs + [row], nextId + 1)
    ensures Ids(cs + [row]) == Ids(cs) + {nextId}
  {
    AppendKeys(cs, IdOf, row);
    var vs := cs + [row];
    forall i, j | 0 <= i < |vs| && 0 <= j < |vs| && i != j ensures vs[i].nombre != vs[j].nombre {
      if i == |cs| {
        assert vs[j] == cs[j] && cs[j] in cs;
      } else if j == |cs| {
        assert vs[i] == cs[i] && cs[i] in cs;
      }
    }
  }

  lemma RemoveKeepsConstraints(cs: seq<Campeonato>, nextId: int, i: nat)
    requires Constraints(cs, nextId) && i < |cs|
    ensures Constraints(RemoveAt(cs, i), nextId)
    ensures Ids(RemoveAt(cs, i)) == Ids(cs) - {cs[i].id}
  {
    var vs := RemoveAt(cs, i);
    forall a, b | 0 <= a < b < |vs| ensures vs[a].id < vs[b].id {
      assert vs[a] == cs[if a < i then a else a + 1];
      assert vs[b] == cs[if b < i then b else b + 1];
    }
    forall a, b | 0 <= a < |vs| && 0 <= b < |vs| && a != b ensures vs[a].nombre != vs[b].nombre {
      assert vs[a] == cs[if a < i then a else a + 1];
      assert vs[b] == cs[if b < i then b else b + 1];
    }
    RemoveKeys(cs, IdOf, nextId, i);
  }
}
