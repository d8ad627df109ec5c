/** The `reportes_jugadores` table: the shape of a row, its NOT NULL column
    and its two foreign keys. */
module ReporteModel {
  import opened Common

  /** A report row as the ORM object holds it. `jugador_id` and
      `campeonato_id` are NOT NULL foreign keys into `usuarios` and
      `campeonatos`; `titulo` is NOT NULL, but an update body may assign it
      null, which only the commit rejects, so the object carries it as an
      `Option`. `descripcion`, `archivo_pdf_url` and `tipo_reporte` are
      nullable. `fecha_reporte`, `created_at` and `updated_at` always hold the
      time their default or `onupdate` gave them. */
  datatype ReporteJugador = ReporteJugador(
    id: int,
    jugadorId: int,
    campeonatoId: int,
    titulo: Option<string>,
    descripcion: Option<string>,
    archivoPdfUrl: Option<string>,
    tipoReporte: Option<string>,
    fechaReporte: Time,
    createdAt: Time,
    updatedAt: Time)

  /** The primary key of a row. */
  function IdOf(r: ReporteJugador): int {
    r.id
  }

  predicate IdsSerial(rs: seq<ReporteJugador>, nextId: int) {
    KeysSerial(rs, IdOf, nextId)
  }

  /** NOT NULL on `titulo`. */
  predicate NotNullColumns(rs: seq<ReporteJugador>) {
    forall i :: 0 <= i < |rs| ==> rs[i].titulo.Some?
  }

  /** FOREIGN KEY `jugador_id` -> `usuarios.id` and `campeonato_id` ->
      `campeonatos.id`: every report names a stored user and a stored
      championship. */
  predicate ReferencesExist(rs: seq<ReporteJugador>, usuarioIds: set<int>, campeonatoIds: set<int>) {
    forall i :: 0 <= i < |rs| ==> rs[i].jugadorId in usuarioIds && rs[i].campeonatoId in campeonatoIds
  }

  predicate Constraints(rs: seq<ReporteJugador>, nextId: int) {
    IdsSerial(rs, nextId) && NotNullColumns(rs)
  }

  /** Does some report name user `id` as its player? */
  predicate ReferencesJugador(rs: seq<ReporteJugador>, id: int) {
    exists i :: 0 <= i < |rs| && rs[i].jugadorId == id
  }

  /** Does some report name championship `id`? */
  predicate ReferencesCampeonato(rs: seq<ReporteJugador>, id: int) {
    exists i :: 0 <= i < |rs| && rs[i].campeonatoId == id
  }

  function Ids(rs: seq<ReporteJugador>): set<int> {
    Keys(rs, IdOf)
  }

  /** `select(ReporteJugador).where(ReporteJugador.id == id)`, as a position in the table. */
  function IndexOfId(rs: seq<ReporteJugador>, id: int): (r: Option<nat>)
    ensures r.Some? ==> r.value < |rs| && rs[r.value].id == id
    ensures r.None? <==> id !in Ids(rs)
  {
    IndexOfKey(rs, IdOf, id)
  }

  /** The check the database makes when `row` replaces a report at commit:
      NOT NULL on `titulo`. */
  predicate RowAccepted(row: ReporteJugador) {
    row.titulo.Some?
  }

  lemma ReplaceKeepsConstraints(rs: seq<ReporteJugador>, nextId: int, i: nat, row: ReporteJugador,
                                usuarioIds: set<int>, campeonatoIds: set<int>)
    requires Constraints(rs, nextId) && ReferencesExist(rs, usuarioIds, campeonatoIds) && i < |rs|
    requires row.id == rs[i].id && row.jugadorId == rs[i].jugadorId && row.campeonatoId == rs[i].campeonatoId
    requires RowAccepted(row)
    ensures Constraints(rs[i := row], nextId) && ReferencesExist(rs[i := row], usuarioIds, campeonatoIds)
    ensures Ids(rs[i := row]) == Ids(rs)
  {
    ReplaceKeys(rs, IdOf, i, row);
  }

  lemma AppendKeepsConstraints(rs: seq<ReporteJugador>, nextId: int, row: ReporteJugador,
                               usuarioIds: set<int>, campeonatoIds: set<int>)
    requires Constraints(rs, nextId) && ReferencesExist(rs, usuarioIds, campeonatoIds)
    requires row.id == nextId && RowAccepted(row)
    requires row.jugadorId in usuarioIds && row.campeonatoId in campeonatoIds
    ensures Constraints(rs + [row], nextId + 1) && ReferencesExist(rs + [row], usuarioIds, campeonatoIds)
    ensures Ids(rs + [row]) == Ids(rs) + {nextId}
  {
    AppendKeys(rs, IdOf, row);
  }

  /** Removing the row at `i` keeps the constraints and every reference, and
      drops exactly its id. */
  lemma RemoveKeepsConstraints(rs: seq<ReporteJugador>, nextId: int, i: nat,
                               usuarioIds: set<int>, campeonatoIds: set<int>)
    requires Constraints(rs, nextId) && ReferencesExist(rs, usuarioIds, campeonatoIds) && i < |rs|
    ensures Constraints(RemoveAt(rs, i), nextId) && ReferencesExist(RemoveAt(rs, i), usuarioIds, campeonatoIds)
    ensures Ids(RemoveAt(rs, i)) == Ids(rs) - {rs[i].id}
  {
    var vs := RemoveAt(rs, i);
    forall a, b | 0 <= a < b < |vs| ensures vs[a].id < vs[b].id {
      assert vs[a] == rs[if a < i then a else a + 1];
      assert vs[b] == rs[if b < i then b else b + 1];
    }
    RemoveKeys(rs, IdOf, nextId, i);
  }

  /** Removing a user no report names keeps every reference valid. */
  lemma JugadorRemovalKeepsReferences(rs: seq<ReporteJugador>, usuarioIds: set<int>, campeonatoIds: set<int>,
                                      usuarioId: int)
    requires ReferencesExist(rs, usuarioIds, campeonatoIds) && !ReferencesJugador(rs, usuarioId)
    ensures ReferencesExist(rs, usuarioIds - {usuarioId}, campeonatoIds)
  {
  }

  /** Removing a championship no report names keeps every reference valid. */
  lemma CampeonatoRemovalKeepsReferences(rs: seq<ReporteJugador>, usuarioIds: set<int>, campeonatoIds: set<int>,
                                         campeonatoId: int)
    requires ReferencesExist(rs, usuarioIds, campeonatoIds) && !ReferencesCampeonato(rs, campeonatoId)
    ensures ReferencesExist(rs, usuarioIds, campeonatoIds - {campeonatoId})
  {
  }
}
