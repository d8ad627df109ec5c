/** The request and response bodies of the report endpoints and the checks
    pydantic makes on them before a handler runs. */
module ReporteSchemas {
  import opened Common
  import opened ReporteModel

  /** `ReporteJugadorCreate` (= `ReporteJugadorBase`). There is no
      `archivo_pdf_url` field: a new report never has a file. `tipo_reporte`
      is any string; the kinds of report appear only in its description. */
  datatype ReporteCreate = ReporteCreate(
    jugadorId: int,
    campeonatoId: int,
    titulo: string,
    descripcion: Option<string>,
    tipoReporte: Option<string>)

  predicate CreateValid(c: ReporteCreate) {
    Bounded(c.titulo, 1, 200) && BoundedIfPresent(c.descripcion, 0, 2000)
  }

  /** `ReporteJugadorUpdate`: the four descriptive columns, each optional.
      The player, the championship and the dates cannot be sent. */
  datatype ReporteUpdate = ReporteUpdate(
    titulo: Change<Option<string>>,
    descripcion: Change<Option<string>>,
    tipoReporte: Change<Option<string>>,
    archivoPdfUrl: Change<Option<string>>)

  /** The same bounds as at creation, checked only on a string that was
      sent: an explicit null `titulo` passes. */
  predicate UpdateValid(p: ReporteUpdate) {
    BoundedIfSent(p.titulo, 1, 200) && BoundedIfSent(p.descripcion, 0, 2000)
  }

  /** `ReporteJugadorResponse` serialises every column and re-checks the
      bounds of `ReporteJugadorBase`, where `titulo` is required. */
  predicate ResponseValid(r: ReporteJugador) {
    && r.titulo.Some? && Bounded(r.titulo.value, 1, 200)
    && BoundedIfPresent(r.descripcion, 0, 2000)
  }

  /** `tipo_reporte` is never checked: any value is accepted in its place. */
  lemma TipoReporteUnchecked(c: ReporteCreate, tipo: Option<string>)
    ensures CreateValid(c.(tipoReporte := tipo)) == CreateValid(c)
  {
  }
}
