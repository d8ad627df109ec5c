/** The request and response bodies of the championship endpoints and the
    checks pydantic makes on them before a handler runs. */
module CampeonatoSchemas {
  import opened Common
  import opened CampeonatoModel

  /** `CampeonatoCreate` (= `CampeonatoBase`). `estado` is `None` when the
      body left it out or sent null; either way the row gets "activo". It is
      never checked against activo/suspendido/finalizado. */
  datatype CampeonatoCreate = CampeonatoCreate(
    nombre: string,
    descripcion: string,
    fechaInicio: Option<Time>,
    fechaFin: Option<Time>,
    canton: Option<string>,
    parroquia: Option<string>,
    estado: Option<string>)

  predicate CreateValid(c: CampeonatoCreate) {
    && Bounded(c.nombre, 1, 100)
    && Bounded(c.descripcion, 1, 1000)
    && BoundedIfPresent(c.canton, 1, 100)
    && BoundedIfPresent(c.parroquia, 1, 100)
  }

  /** `CampeonatoUpdate`: every column but the id and the timestamps is
      optional. */
  datatype CampeonatoUpdate = CampeonatoUpdate(
    nombre: Change<Option<string>>,
    descripcion: Change<Option<string>>,
    fechaInicio: Change<Option<Time>>,
    fechaFin: Change<Option<Time>>,
    canton: Change<Option<string>>,
    parroquia: Change<Option<string>>,
    estado: Change<Option<string>>)

  /** The update bounds are looser than the create bounds: `nombre` may be up
      to 200 characters, `descripcion` may be empty, and `canton`,
      `parroquia` and `estado` are unchecked. */
  predicate UpdateValid(p: CampeonatoUpdate) {
    BoundedIfSent(p.nombre, 1, 200) && BoundedIfSent(p.descripcion, 0, 1000)
  }

  /** `CampeonatoResponse` serialises every column; it re-checks the bounds
      of `CampeonatoBase`, where `nombre` and `descripcion` are required. */
  predicate ResponseValid(c: Campeonato) {
    && c.nombre.Some? && Bounded(c.nombre.value, 1, 100)
    && c.descripcion.Some? && Bounded(c.descripcion.value, 1, 1000)
    && BoundedIfPresent(c.canton, 1, 100)
    && BoundedIfPresent(c.parroquia, 1, 100)
  }

  /** `estado` is never checked: any value is accepted in its place. */
  lemma EstadoUnchecked(c: CampeonatoCreate, estado: Option<string>)
    ensures CreateValid(c.(estado := estado)) == CreateValid(c)
  {
  }
}
