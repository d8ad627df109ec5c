/** The database session the handlers write through: the three tables and
    the id sequence of each, updated in place by the create, update and
    delete handlers of the three routers. Each handler is proved to leave the
    answer and the table that the matching router function describes, and
    to keep every declared constraint. */
module Database {
  import opened Common
  import UsuarioModel
  import CampeonatoModel
  import ReporteModel
  import UsuarioSchemas
  import CampeonatoSchemas
  import ReporteSchemas
  import UsuariosRouter
  import CampeonatosRouter
  import ReportesRouter

  class Store {
    var usuarios: seq<UsuarioModel.Usuario>
    var campeonatos: seq<CampeonatoModel.Campeonato>
    var reportes: seq<ReporteModel.ReporteJugador>
    /** The next value of each table's `SERIAL` sequence. */
    var nextUsuarioId: int
    var nextCampeonatoId: int
    var nextReporteId: int

    /** Every column constraint of the three tables, both foreign keys of
        the reports, and every stored user and report serialisable by its
        response schema. */
    ghost predicate Valid()
      reads this
    {
      && UsuarioModel.Constraints(usuarios, nextUsuarioId)
      && CampeonatoModel.Constraints(campeonatos, nextCampeonatoId)
      && ReporteModel.Constraints(reportes, nextReporteId)
      && ReporteModel.ReferencesExist(reportes, UsuarioModel.Ids(usuarios), CampeonatoModel.Ids(campeonatos))
      && (forall u :: u in usuarios ==> UsuarioSchemas.ResponseValid(UsuarioSchemas.ToResponse(u)))
      && (forall r :: r in reportes ==> ReporteSchemas.ResponseValid(r))
    }

    /** Freshly created tables: empty, every sequence at 1. */
    constructor ()
      ensures Valid()
      ensures usuarios == [] && campeonatos == [] && reportes == []
      ensures nextUsuarioId == 1 && nextCampeonatoId == 1 && nextReporteId == 1
    {
      usuarios, campeonatos, reportes := [], [], [];
      nextUsuarioId, nextCampeonatoId, nextReporteId := 1, 1, 1;
    }

    /** `crear_usuario` (app/routers/usuarios.py). */
    method CrearUsuario(c: UsuarioSchemas.UsuarioCreate, now: Time) returns (r: Result<UsuarioSchemas.UsuarioResponse>)
      requires Valid()
      modifies this
      ensures Valid()
      ensures Outcome(r, usuarios) == UsuariosRouter.CrearUsuario(old(usuarios), old(nextUsuarioId), c, now)
      ensures nextUsuarioId == if r.Ok? then old(nextUsuarioId) + 1 else old(nextUsuarioId)
      ensures campeonatos == old(campeonatos) && reportes == old(reportes)
      ensures nextCampeonatoId == old(nextCampeonatoId) && nextReporteId == old(nextReporteId)
    {
      var refused := UsuariosRouter.CrearUsuarioCheck(usuarios, c);
      if refused.Some? {
        return Err(refused.value);
      }
      var row := UsuariosRouter.NewUsuario(nextUsuarioId, c, now);
      ghost var o := UsuariosRouter.CrearUsuario(usuarios, nextUsuarioId, c, now);
      assert o == Outcome(Ok(UsuarioSchemas.ToResponse(row)), usuarios + [row]);
      UsuariosRouter.CrearUsuarioKeepsConstraints(usuarios, nextUsuarioId, c, now);
      usuarios := usuarios + [row];
      nextUsuarioId := nextUsuarioId + 1;
      r := Ok(UsuarioSchemas.ToResponse(row));
    }

    /** `actualizar_usuario` (app/routers/usuarios.py). */
    method ActualizarUsuario(id: int, p: UsuarioSchemas.UsuarioUpdate, now: Time)
      returns (r: Result<UsuarioSchemas.UsuarioResponse>)
      requires Valid()
      modifies this
      ensures Valid()
      ensures Outcome(r, usuarios) == UsuariosRouter.ActualizarUsuario(old(usuarios), id, p, now)
      ensures campeonatos == old(campeonatos) && reportes == old(reportes)
      ensures nextUsuarioId == old(nextUsuarioId) && nextCampeonatoId == old(nextCampeonatoId)
      ensures nextReporteId == old(nextReporteId)
    {
      if !UsuarioSchemas.UpdateValid(p) {
        return Err(Invalid);
      }
      var found := UsuarioModel.IndexOfId(usuarios, id);
      if found.None? {
        return Err(NotFound(NoUsuario));
      }
      var i := found.value;
      var pending := UsuariosRouter.ApplyUpdate(usuarios[i], p);
      if pending == usuarios[i] {
        return Ok(UsuarioSchemas.ToResponse(usuarios[i]));
      }
      if !UsuarioModel.RowAccepted(usuarios, i, pending) {
        return Err(Integrity);
      }
      UsuariosRouter.ActualizarUsuarioKeepsConstraints(usuarios, nextUsuarioId, id, p, now);
      UsuariosRouter.ActualizarUsuarioKeepsResponses(usuarios, id, p, now);
      var row := pending.(updatedAt := now);
      usuarios := usuarios[i := row];
      r := Ok(UsuarioSchemas.ToResponse(row));
    }

    /** `eliminar_usuario` (app/routers/usuarios.py). */
    method EliminarUsuario(id: int) returns (r: Result<()>)
      requires Valid()
      modifies this
      ensures Valid()
      ensures Outcome(r, usuarios) == UsuariosRouter.EliminarUsuario(old(usuarios), old(reportes), id)
      ensures campeonatos == old(campeonatos) && reportes == old(reportes)
      ensures nextUsuarioId == old(nextUsuarioId) && nextCampeonatoId == old(nextCampeonatoId)
      ensures nextReporteId == old(nextReporteId)
    {
      var found := UsuarioModel.IndexOfId(usuarios, id);
      if found.None? {
        return Err(NotFound(NoUsuario));
      }
      if ReporteModel.ReferencesJugador(reportes, id) {
        return Err(Integrity);
      }
      UsuariosRouter.EliminarUsuarioKeepsConstraints(usuarios, nextUsuarioId, reportes,
                                                     CampeonatoModel.Ids(campeonatos), id);
      usuarios := RemoveAt(usuarios, found.value);
      r := Ok(());
    }

    /** `crear_campeonato` (app/routers/campeonatos.py). */
    method CrearCampeonato(c: CampeonatoSchemas.CampeonatoCreate, now: Time)
      returns (r: Result<CampeonatoModel.Campeonato>)
      requires Valid()
      modifies this
      ensures Valid()
      ensures Outcome(r, campeonatos)
           == CampeonatosRouter.CrearCampeonato(old(campeonatos), old(nextCampeonatoId), c, now)
      ensures nextCampeonatoId == if r.Ok? then old(nextCampeonatoId) + 1 else old(nextCampeonatoId)
      ensures usuarios == old(usuarios) && reportes == old(reportes)
      ensures nextUsuarioId == old(nextUsuarioId) && nextReporteId == old(nextReporteId)
    {
      var refused := CampeonatosRouter.CrearCampeonatoCheck(campeonatos, c);
      if refused.Some? {
        return Err(refused.value);
      }
      var row := CampeonatosRouter.NewCampeonato(nextCampeonatoId, c, now);
      ghost var o := CampeonatosRouter.CrearCampeonato(campeonatos, nextCampeonatoId, c, now);
      assert o == Outcome(Ok(row), campeonatos + [row]);
      CampeonatosRouter.CrearCampeonatoKeepsConstraints(campeonatos, nextCampeonatoId, c, now);
      campeonatos := campeonatos + [row];
      nextCampeonatoId := nextCampeonatoId + 1;
      r := Ok(row);
    }

    /** `actualizar_campeonato` (app/routers/campeonatos.py). */
    method ActualizarCampeonato(id: int, p: CampeonatoSchemas.CampeonatoUpdate, now: Time)
      returns (r: Result<CampeonatoModel.Campeonato>)
      requires Valid()
      modifies this
      ensures Valid()
      ensures Outcome(r, campeonatos) == CampeonatosRouter.ActualizarCampeonato(old(campeonatos), id, p, now)
      ensures usuarios == old(usuarios) && reportes == old(reportes)
      ensures nextUsuarioId == old(nextUsuarioId) && nextCampeonatoId == old(nextCampeonatoId)
      ensures nextReporteId == old(nextReporteId)
    {
      if !CampeonatoSchemas.UpdateValid(p) {
        return Err(Invalid);
      }
      var found := CampeonatoModel.IndexOfId(campeonatos, id);
      if found.None? {
        return Err(NotFound(NoCampeonato));
      }
      var i := found.value;
      var pending := CampeonatosRouter.ApplyUpdate(campeonatos[i], p);
      if pending == campeonatos[i] {
        return Ok(campeonatos[i]);
      }
      if !CampeonatoModel.RowAccepted(campeonatos, i, pending) {
        return Err(Integrity);
      }
      CampeonatosRouter.ActualizarCampeonatoKeepsConstraints(campeonatos, nextCampeonatoId, id, p, now);
      var row := pending.(updatedAt := now);
      campeonatos := campeonatos[i := row];
      r := Ok(row);
    }

    /** `eliminar_campeonato` (app/routers/campeonatos.py). */
    method EliminarCampeonato(id: int) returns (r: Result<()>)
      requires Valid()
      modifies this
      ensures Valid()
      ensures Outcome(r, campeonatos) == CampeonatosRouter.EliminarCampeonato(old(campeonatos), old(reportes), id)
      ensures usuarios == old(usuarios) && reportes == old(reportes)
      ensures nextUsuarioId == old(nextUsuarioId) && nextCampeonatoId == old(nextCampeonatoId)
      ensures nextReporteId == old(nextReporteId)
    {
      var found := CampeonatoModel.IndexOfId(campeonatos, id);
      if found.None? {
        return Err(NotFound(NoCampeonato));
      }
      if ReporteModel.ReferencesCampeonato(reportes, id) {
        return Err(Integrity);
      }
      CampeonatosRouter.EliminarCampeonatoKeepsConstraints(campeonatos, nextCampeonatoId, reportes,
                                                           UsuarioModel.Ids(usuarios), id);
      campeonatos := RemoveAt(campeonatos, found.value);
      r := Ok(());
    }

    /** `crear_reporte_jugador` (app/routers/reportes_jugadores.py). */
    method CrearReporte(c: ReporteSchemas.ReporteCreate, now: Time) returns (r: Result<ReporteModel.ReporteJugador>)
      requires Valid()
      modifies this
      ensures Valid()
      ensures Outcome(r, reportes)
           == ReportesRouter.CrearReporte(old(reportes), old(nextReporteId), UsuarioModel.Ids(old(usuarios)),
                                          CampeonatoModel.Ids(old(campeonatos)), c, now)
      ensures nextReporteId == if r.Ok? then old(nextReporteId) + 1 else old(nextReporteId)
      ensures usuarios == old(usuarios) && campeonatos == old(campeonatos)
      ensures nextUsuarioId == old(nextUsuarioId) && nextCampeonatoId == old(nextCampeonatoId)
    {
      if !ReporteSchemas.CreateValid(c) {
        return Err(Invalid);
      }
      if UsuarioModel.IndexOfId(usuarios, c.jugadorId).None? {
        return Err(NotFound(NoJugador));
      }
      if CampeonatoModel.IndexOfId(campeonatos, c.campeonatoId).None? {
        return Err(NotFound(NoCampeonato));
      }
      ReportesRouter.CrearReporteKeepsConstraints(reportes, nextReporteId, UsuarioModel.Ids(usuarios),
                                                  CampeonatoModel.Ids(campeonatos), c, now);
      var row := ReportesRouter.NewReporte(nextReporteId, c, now);
      reportes := reportes + [row];
      nextReporteId := nextReporteId + 1;
      r := Ok(row);
    }

    /** `actualizar_reporte` (app/routers/reportes_jugadores.py). */
    method ActualizarReporte(id: int, p: ReporteSchemas.ReporteUpdate, now: Time)
      returns (r: Result<ReporteModel.ReporteJugador>)
      requires Valid()
      modifies this
      ensures Valid()
      ensures Outcome(r, reportes) == ReportesRouter.ActualizarReporte(old(reportes), id, p, now)
      ensures usuarios == old(usuarios) && campeonatos == old(campeonatos)
      ensures nextUsuarioId == old(nextUsuarioId) && nextCampeonatoId == old(nextCampeonatoId)
      ensures nextReporteId == old(nextReporteId)
    {
      if !ReporteSchemas.UpdateValid(p) {
        return Err(Invalid);
      }
      var found := ReporteModel.IndexOfId(reportes, id);
      if found.None? {
        return Err(NotFound(NoReporte));
      }
      var i := found.value;
      var pending := ReportesRouter.ApplyUpdate(reportes[i], p);
      if pending == reportes[i] {
        return Ok(reportes[i]);
      }
      if !ReporteModel.RowAccepted(pending) {
        return Err(Integrity);
      }
      ReportesRouter.ActualizarReporteKeepsConstraints(reportes, nextReporteId, UsuarioModel.Ids(usuarios),
                                                       CampeonatoModel.Ids(campeonatos), id, p, now);
      ReportesRouter.ActualizarReporteKeepsResponses(reportes, id, p, now);
      var row := pending.(updatedAt := now);
      reportes := reportes[i := row];
      r := Ok(row);
    }

    /** `eliminar_reporte` (app/routers/reportes_jugadores.py). */
    method EliminarReporte(id: int) returns (r: Result<()>)
      requires Valid()
      modifies this
      ensures Valid()
      ensures Outcome(r, reportes) == ReportesRouter.EliminarReporte(old(reportes), id)
      ensures usuarios == old(usuarios) && campeonatos == old(campeonatos)
      ensures nextUsuarioId == old(nextUsuarioId) && nextCampeonatoId == old(nextCampeonatoId)
      ensures nextReporteId == old(nextReporteId)
    {
      var found := ReporteModel.IndexOfId(reportes, id);
      if found.None? {
        return Err(NotFound(NoReporte));
      }
      ReportesRouter.EliminarReporteKeepsConstraints(reportes, nextReporteId, UsuarioModel.Ids(usuarios),
                                                     CampeonatoModel.Ids(campeonatos), id);
      reportes := RemoveAt(reportes, found.value);
      r := Ok(());
    }
  }
}
