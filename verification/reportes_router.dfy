/** The report router: the read-only handlers (`listar_reportes`,
    `obtener_reporte`) as functions over the `reportes_jugadores` table, and
    the writing handlers as functions from the tables before the request to
    the answer and the table the transaction commits. `Database.Store` runs
    the writing handlers in place and is proved against these functions. */
module ReportesRouter {
  import opened Common
  import opened ReporteModel
  import opened ReporteSchemas

  /** The two optional query filters, `is not None` each, combined by AND. */
  predicate ReporteMatches(r: ReporteJugador, jugadorId: Option<int>, campeonatoId: Option<int>) {
    && (jugadorId.Some? ==> r.jugadorId == jugadorId.value)
    && (campeonatoId.Some? ==> r.campeonatoId == campeonatoId.value)
  }

  /** The reports the query selects before OFFSET and LIMIT. */
  function Filtrados(rs: seq<ReporteJugador>, jugadorId: Option<int>, campeonatoId: Option<int>)
    : (r: seq<ReporteJugador>)
    ensures forall x :: x in r <==> x in rs && ReporteMatches(x, jugadorId, campeonatoId)
    ensures jugadorId.None? && campeonatoId.None? ==> r == rs
  {
    if jugadorId.None? && campeonatoId.None? then rs
    else Where(rs, (x: ReporteJugador) => ReporteMatches(x, jugadorId, campeonatoId))
  }

  /** `listar_reportes`: the optional filters, then OFFSET `skip` LIMIT
      `limit`. A filter value of 0 is still a filter. */
  function ListarReportes(rs: seq<ReporteJugador>, skip: int := 0, limit: int := 100,
                          jugadorId: Option<int> := None, campeonatoId: Option<int> := None)
    : (r: Result<seq<ReporteJugador>>)
    ensures r.Err? <==> skip < 0 || limit < 0
    ensures r.Err? ==> r.error == NegativePagination
    ensures r.Ok? ==> |r.value| <= limit
    ensures r.Ok? ==> |r.value| == if skip >= |Filtrados(rs, jugadorId, campeonatoId)| then 0
                                   else Min(limit, |Filtrados(rs, jugadorId, campeonatoId)| - skip)
    ensures r.Ok? ==> forall x :: x in r.value ==> x in rs && ReporteMatches(x, jugadorId, campeonatoId)
    ensures r.Ok? ==> forall k :: 0 <= k < |r.value| ==>
      skip + k < |Filtrados(rs, jugadorId, campeonatoId)|
      && r.value[k] == Filtrados(rs, jugadorId, campeonatoId)[skip + k]
    ensures r.Ok? && skip == 0 ==>
      forall x :: x in rs && ReporteMatches(x, jugadorId, campeonatoId) ==> x in r.value || |r.value| == limit
  {
    var rows := Filtrados(rs, jugadorId, campeonatoId);
    PageWithin(rows, skip, limit);
    if skip == 0 && limit >= 0 then FirstPageComplete(rows, limit); Page(rows, skip, limit)
    else Page(rows, skip, limit)
  }

  /** A request without query parameters lists the first 100 reports. */
  lemma ListarReportesDefaults(rs: seq<ReporteJugador>)
    ensures ListarReportes(rs) == Ok(rs[..Min(100, |rs|)])
  {
  }

  /** `obtener_reporte`: the report with that id, or 404. */
  function ObtenerReporte(rs: seq<ReporteJugador>, id: int): (r: Result<ReporteJugador>)
    ensures r.Err? <==> id !in Ids(rs)
    ensures r.Err? ==> r.error == NotFound(NoReporte)
    ensures r.Ok? ==> r.value.id == id && r.value in rs
  {
    match IndexOfId(rs, id)
    case None => Err(NotFound(NoReporte))
    case Some(i) => Ok(rs[i])
  }

  /** `ReporteJugador(**reporte.model_dump())` as the insert completes it:
      the next serial id, no file, and `fecha_reporte` and both timestamps
      from their default. */
  function NewReporte(id: int, c: ReporteCreate, now: Time): ReporteJugador {
    ReporteJugador(id, c.jugadorId, c.campeonatoId, Some(c.titulo), c.descripcion, None, c.tipoReporte,
                   now, now, now)
  }

  /** `crear_reporte_jugador` on the table: the body is validated, the player
      is looked up among the users (any user, whatever its `rol`), then the
      championship, then the report is inserted under the next serial id. */
  function CrearReporte(rs: seq<ReporteJugador>, nextId: int, usuarioIds: set<int>, campeonatoIds: set<int>,
                        c: ReporteCreate, now: Time)
    : (o: Outcome<ReporteJugador, ReporteJugador>)
    ensures o.result.Ok? <==> CreateValid(c) && c.jugadorId in usuarioIds && c.campeonatoId in campeonatoIds
    ensures o.result.Err? ==> o.rows == rs
    ensures o.result.Err? ==>
      o.result.error == (if !CreateValid(c) then Invalid
                         else if c.jugadorId !in usuarioIds then NotFound(NoJugador)
                         else NotFound(NoCampeonato))
    ensures o.result.Ok? ==>
      && |o.rows| == |rs| + 1 && o.rows[..|rs|] == rs
      && o.rows[|rs|].id == nextId && o.result.value == o.rows[|rs|]
  {
    if !CreateValid(c) then Outcome(Err(Invalid), rs)
    else if c.jugadorId !in usuarioIds then Outcome(Err(NotFound(NoJugador)), rs)
    else if c.campeonatoId !in campeonatoIds then Outcome(Err(NotFound(NoCampeonato)), rs)
    else
      var row := NewReporte(nextId, c, now);
      assert (rs + [row])[..|rs|] == rs;
      Outcome(Ok(row), rs + [row])
  }

  /** A committed create keeps the table's constraints and references,
      advances the id sequence, and leaves every report serialisable. */
  lemma CrearReporteKeepsConstraints(rs: seq<ReporteJugador>, nextId: int, usuarioIds: set<int>,
                                     campeonatoIds: set<int>, c: ReporteCreate, now: Time)
    requires Constraints(rs, nextId) && ReferencesExist(rs, usuarioIds, campeonatoIds)
    requires forall r :: r in rs ==> ResponseValid(r)
    ensures var o := CrearReporte(rs, nextId, usuarioIds, campeonatoIds, c, now);
            && Constraints(o.rows, if o.result.Ok? then nextId + 1 else nextId)
            && ReferencesExist(o.rows, usuarioIds, campeonatoIds)
            && Ids(o.rows) == (if o.result.Ok? then Ids(rs) + {nextId} else Ids(rs))
            && forall r :: r in o.rows ==> ResponseValid(r)
  {
    var o := CrearReporte(rs, nextId, usuarioIds, campeonatoIds, c, now);
    if o.result.Ok? {
      AppendKeepsConstraints(rs, nextId, NewReporte(nextId, c, now), usuarioIds, campeonatoIds);
    }
  }

  /** A created report reads back as submitted, without a file, dated and
      stamped at the insertion time. */
  lemma {:induction false} CreatedReporteReadsBack(rs: seq<ReporteJugador>, nextId: int, usuarioIds: set<int>,
                                                   campeonatoIds: set<int>, c: ReporteCreate, now: Time)
    requires Constraints(rs, nextId)
    ensures var o := CrearReporte(rs, nextId, usuarioIds, campeonatoIds, c, now);
            o.result.Ok? ==>
              && ObtenerReporte(o.rows, nextId) == o.result
              && o.result.value
                 == ReporteJugador(nextId, c.jugadorId, c.campeonatoId, Some(c.titulo), c.descripcion, None,
                                   c.tipoReporte, now, now, now)
  {
    var o := CrearReporte(rs, nextId, usuarioIds, campeonatoIds, c, now);
    if o.result.Ok? {
      var vs := o.rows;
      assert vs == rs + [NewReporte(nextId, c, now)];
      assert vs[|rs|] in vs;
      assert forall x :: x in rs ==> x.id < nextId;
      assert forall x :: x in vs && x.id == nextId ==> x == NewReporte(nextId, c, now);
    }
  }

  /** One item of `reporte_update.model_dump(exclude_unset=True)`. */
  datatype ReporteAttr =
    | TituloAttr(titulo: Option<string>)
    | DescripcionAttr(descripcion: Option<string>)
    | TipoReporteAttr(tipoReporte: Option<string>)
    | ArchivoPdfUrlAttr(archivoPdfUrl: Option<string>)

  /** `setattr(db_reporte, field, value)`. */
  function SetAttr(r: ReporteJugador, a: ReporteAttr): ReporteJugador {
    match a
    case TituloAttr(v) => r.(titulo := v)
    case DescripcionAttr(v) => r.(descripcion := v)
    case TipoReporteAttr(v) => r.(tipoReporte := v)
    case ArchivoPdfUrlAttr(v) => r.(archivoPdfUrl := v)
  }

  /** `model_dump(exclude_unset=True)`: the fields the body carried, in
      declaration order. */
  function UpdateData(p: ReporteUpdate): seq<ReporteAttr> {
    (if p.titulo.SetTo? then [TituloAttr(p.titulo.value)] else [])
    + ((if p.descripcion.SetTo? then [DescripcionAttr(p.descripcion.value)] else [])
    + ((if p.tipoReporte.SetTo? then [TipoReporteAttr(p.tipoReporte.value)] else [])
    + ((if p.archivoPdfUrl.SetTo? then [ArchivoPdfUrlAttr(p.archivoPdfUrl.value)] else [])
    + [])))
  }

  /** The intended merge, field by field: a field the body carried takes the
      sent value (null included), every other column keeps its value. */
  function Patched(r: ReporteJugador, p: ReporteUpdate): ReporteJugador {
    r.(titulo := p.titulo.Over(r.titulo),
       descripcion := p.descripcion.Over(r.descripcion),
       tipoReporte := p.tipoReporte.Over(r.tipoReporte),
       archivoPdfUrl := p.archivoPdfUrl.Over(r.archivoPdfUrl))
  }

  /** The `setattr` loop over the dumped fields performs that merge. */
  lemma {:induction false} UpdateDataIsPatch(r: ReporteJugador, p: ReporteUpdate)
    ensures ApplyAll(r, UpdateData(p), SetAttr) == Patched(r, p)
  {
    var s4 := (if p.archivoPdfUrl.SetTo? then [ArchivoPdfUrlAttr(p.archivoPdfUrl.value)] else []) + [];
    var s3 := (if p.tipoReporte.SetTo? then [TipoReporteAttr(p.tipoReporte.value)] else []) + s4;
    var s2 := (if p.descripcion.SetTo? then [DescripcionAttr(p.descripcion.value)] else []) + s3;
    var r1 := r.(titulo := p.titulo.Over(r.titulo));
    ApplyAllOptional(r, p.titulo.SetTo?, TituloAttr(p.titulo.Over(r.titulo)), s2, SetAttr);
    var r2 := r1.(descripcion := p.descripcion.Over(r.descripcion));
    ApplyAllOptional(r1, p.descripcion.SetTo?, DescripcionAttr(p.descripcion.Over(r.descripcion)), s3, SetAttr);
    var r3 := r2.(tipoReporte := p.tipoReporte.Over(r.tipoReporte));
    ApplyAllOptional(r2, p.tipoReporte.SetTo?, TipoReporteAttr(p.tipoReporte.Over(r.tipoReporte)), s4, SetAttr);
    ApplyAllOptional(r3, p.archivoPdfUrl.SetTo?, ArchivoPdfUrlAttr(p.archivoPdfUrl.Over(r.archivoPdfUrl)), [],
                     SetAttr);
  }

  /** Lines 118-120 of `actualizar_reporte`: the loop applies the body to the
      loaded row. The player, the championship, the report date and the
      timestamps never change through it. */
  method ApplyUpdate(r: ReporteJugador, p: ReporteUpdate) returns (q: ReporteJugador)
    ensures q == Patched(r, p)
    ensures q.(titulo := r.titulo, descripcion := r.descripcion, tipoReporte := r.tipoReporte,
               archivoPdfUrl := r.archivoPdfUrl) == r
  {
    q := SetAttrs(r, UpdateData(p), SetAttr);
    UpdateDataIsPatch(r, p);
  }

  /** An accepted update keeps the report serialisable: the update schema
      checks `titulo` and `descripcion` against the response bounds, and the
      commit refuses a null `titulo`. */
  lemma PatchKeepsResponseValid(r: ReporteJugador, p: ReporteUpdate)
    requires ResponseValid(r) && UpdateValid(p) && RowAccepted(Patched(r, p))
    ensures ResponseValid(Patched(r, p))
  {
  }

  /** `actualizar_reporte` on the table. The body is validated before the
      handler runs, then the row is looked up, patched and committed. The
      commit writes only when a column value changed, and only then does the
      `onupdate` hook stamp `updated_at`; it is rolled back when the new
      `titulo` is null. */
  function ActualizarReporte(rs: seq<ReporteJugador>, id: int, p: ReporteUpdate, now: Time)
    : (o: Outcome<ReporteJugador, ReporteJugador>)
    ensures !UpdateValid(p) ==> o == Outcome(Err(Invalid), rs)
    ensures UpdateValid(p) && id !in Ids(rs) ==> o == Outcome(Err(NotFound(NoReporte)), rs)
    ensures o.result.Err? ==> o.rows == rs
    ensures o.result.Ok? ==> UpdateValid(p) && id in Ids(rs) && |o.rows| == |rs|
    ensures forall k :: 0 <= k < |rs| && rs[k].id != id ==> o.rows[k] == rs[k]
    ensures o.result.Err? ==> o.result.error in {Invalid, NotFound(NoReporte), Integrity}
    ensures o.result.Ok? <==>
      && UpdateValid(p) && id in Ids(rs)
      && var k := IndexOfId(rs, id).value;
         Patched(rs[k], p) == rs[k] || RowAccepted(Patched(rs[k], p))
    ensures id in Ids(rs) ==>
      var k := IndexOfId(rs, id).value;
      && (o.result == Err(Integrity) <==>
            UpdateValid(p) && Patched(rs[k], p) != rs[k] && !RowAccepted(Patched(rs[k], p)))
      && (o.result.Ok? ==>
            && o.rows[k].(updatedAt := rs[k].updatedAt) == Patched(rs[k], p)
            && o.rows[k].updatedAt == (if Patched(rs[k], p) == rs[k] then rs[k].updatedAt else now)
            && o.result.value == o.rows[k])
  {
    if !UpdateValid(p) then Outcome(Err(Invalid), rs)
    else
      match IndexOfId(rs, id)
      case None => Outcome(Err(NotFound(NoReporte)), rs)
      case Some(i) =>
        var pending := Patched(rs[i], p);
        if pending == rs[i] then Outcome(Ok(rs[i]), rs)
        else if !RowAccepted(pending) then Outcome(Err(Integrity), rs)
        else
          var row := pending.(updatedAt := now);
          Outcome(Ok(row), rs[i := row])
  }

  /** A committed update keeps the table's constraints, its ids and every
      reference (the player and the championship cannot be changed). */
  lemma ActualizarReporteKeepsConstraints(rs: seq<ReporteJugador>, nextId: int, usuarioIds: set<int>,
                                          campeonatoIds: set<int>, id: int, p: ReporteUpdate, now: Time)
    requires Constraints(rs, nextId)
    ensures var o := ActualizarReporte(rs, id, p, now);
            && Constraints(o.rows, nextId) && Ids(o.rows) == Ids(rs)
            && (ReferencesExist(rs, usuarioIds, campeonatoIds) ==> ReferencesExist(o.rows, usuarioIds, campeonatoIds))
  {
    var o := ActualizarReporte(rs, id, p, now);
    if o.result.Ok? && ReferencesExist(rs, usuarioIds, campeonatoIds) {
      var i := IndexOfId(rs, id).value;
      var pending := Patched(rs[i], p);
      if pending != rs[i] {
        var row := pending.(updatedAt := now);
        assert o.rows == rs[i := row];
        ReplaceKeepsConstraints(rs, nextId, i, row, usuarioIds, campeonatoIds);
      }
    }
  }

  /** Every stored report stays serialisable through an update. */
  lemma ActualizarReporteKeepsResponses(rs: seq<ReporteJugador>, id: int, p: ReporteUpdate, now: Time)
    requires forall r :: r in rs ==> ResponseValid(r)
    ensures var o := ActualizarReporte(rs, id, p, now);
            forall r :: r in o.rows ==> ResponseValid(r)
  {
    var o := ActualizarReporte(rs, id, p, now);
    if o.result.Ok? {
      var i := IndexOfId(rs, id).value;
      var pending := Patched(rs[i], p);
      if pending != rs[i] {
        var row := pending.(updatedAt := now);
        assert o.rows == rs[i := row];
        assert rs[i] in rs;
        PatchKeepsResponseValid(rs[i], p);
        forall r | r in o.rows ensures ResponseValid(r) {
          var k :| 0 <= k < |o.rows| && o.rows[k] == r;
          if k != i { assert rs[k] in rs; }
        }
      }
    }
  }

  /** An update that is answered with a report leaves it readable under the
      same id, exactly as answered. */
  lemma ActualizarReporteReadsBack(rs: seq<ReporteJugador>, nextId: int, id: int, p: ReporteUpdate, now: Time)
    requires Constraints(rs, nextId)
    ensures var o := ActualizarReporte(rs, id, p, now);
            o.result.Ok? ==> ObtenerReporte(o.rows, id) == o.result
  {
    var o := ActualizarReporte(rs, id, p, now);
    if o.result.Ok? {
      var i := IndexOfId(rs, id).value;
      ActualizarReporteKeepsConstraints(rs, nextId, {}, {}, id, p, now);
      var j := IndexOfId(o.rows, id).value;
      assert o.rows[i].id == id;
      assert i == j;
    }
  }

  /** A body that carries no field changes nothing: the stored row, and with
      it `updated_at`, stays as it was. */
  lemma EmptyUpdateChangesNothing(rs: seq<ReporteJugador>, id: int, now: Time)
    requires id in Ids(rs)
    ensures ActualizarReporte(rs, id, ReporteUpdate(Unset, Unset, Unset, Unset), now)
         == Outcome(ObtenerReporte(rs, id), rs)
  {
  }

  /** Sending the same body again, at any later time, is answered with the
      same report and writes nothing. */
  lemma ActualizarReporteIdempotent(rs: seq<ReporteJugador>, nextId: int, id: int, p: ReporteUpdate,
                                    now: Time, later: Time)
    requires Constraints(rs, nextId)
    ensures var o := ActualizarReporte(rs, id, p, now);
            o.result.Ok? ==> ActualizarReporte(o.rows, id, p, later) == o
  {
    var o := ActualizarReporte(rs, id, p, now);
    if o.result.Ok? {
      var i := IndexOfId(rs, id).value;
      ActualizarReporteKeepsConstraints(rs, nextId, {}, {}, id, p, now);
      assert o.rows[i].id == id;
      var j := IndexOfId(o.rows, id).value;
      assert i == j;
      assert Patched(o.rows[i], p) == o.rows[i];
    }
  }

  /** `eliminar_reporte` on the table: nothing references a report, so a
      report that exists is always deleted. */
  function EliminarReporte(rs: seq<ReporteJugador>, id: int): (o: Outcome<ReporteJugador, ()>)
    ensures o.result.Ok? <==> id in Ids(rs)
    ensures o.result.Err? ==> o == Outcome(Err(NotFound(NoReporte)), rs)
    ensures o.result.Ok? ==> |o.rows| == |rs| - 1 && forall x :: x in o.rows ==> x in rs
  {
    match IndexOfId(rs, id)
    case None => Outcome(Err(NotFound(NoReporte)), rs)
    case Some(i) =>
      var rest := RemoveAt(rs, i);
      assert forall x :: x in rest ==> x in rs by {
        forall x | x in rest ensures x in rs {
          var k :| 0 <= k < |rest| && rest[k] == x;
          assert x == rs[if k < i then k else k + 1];
        }
      }
      Outcome(Ok(()), rest)
  }

  /** A committed delete keeps the table's constraints and references,
      removes exactly that id, and the report reads back as missing
      afterwards. */
  lemma EliminarReporteKeepsConstraints(rs: seq<ReporteJugador>, nextId: int, usuarioIds: set<int>,
                                        campeonatoIds: set<int>, id: int)
    requires Constraints(rs, nextId) && ReferencesExist(rs, usuarioIds, campeonatoIds)
    ensures var o := EliminarReporte(rs, id);
            && Constraints(o.rows, nextId) && ReferencesExist(o.rows, usuarioIds, campeonatoIds)
            && Ids(o.rows) == Ids(rs) - {id}
            && ObtenerReporte(o.rows, id) == Err(NotFound(NoReporte))
  {
    var o := EliminarReporte(rs, id);
    if o.result.Ok? {
      var i := IndexOfId(rs, id).value;
      assert o.rows == RemoveAt(rs, i);
      RemoveKeepsConstraints(rs, nextId, i, usuarioIds, campeonatoIds);
    }
  }
}
