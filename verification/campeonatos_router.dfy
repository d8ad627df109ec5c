/** The read-only handlers of the championship router (`listar_campeonatos`,
    `obtener_campeonato`) as functions over the `campeonatos` table, and the
    pieces the writing handlers are built from. The writing handlers
    themselves are methods of `Database.Store`. */
module CampeonatosRouter {
  import opened Common
  import opened CampeonatoModel
  import opened CampeonatoSchemas
  import ReporteModel

  /** Python truthiness of `estado: str | None`: None and "" are false. */
  predicate Truthy(estado: Option<string>) {
    estado.Some? && estado.value != ""
  }

  /** The `estado` filter applies only when the argument is truthy; SQL
      equality never matches a null column. */
  predicate MatchesEstado(c: Campeonato, estado: Option<string>) {
    Truthy(estado) ==> c.estado == estado
  }

  /** The championships the query selects before OFFSET and LIMIT. */
  function Matching(cs: seq<Campeonato>, estado: Option<string>): (r: seq<Campeonato>)
    ensures forall c :: c in r <==> c in cs && MatchesEstado(c, estado)
    ensures !Truthy(estado) ==> r == cs
  {
    if Truthy(estado) then Where(cs, (c: Campeonato) => c.estado == estado) else cs
  }

  /** `listar_campeonatos`: the optional `estado` filter, then OFFSET `skip`
      LIMIT `limit`. */
  function ListarCampeonatos(cs: seq<Campeonato>, skip: int := 0, limit: int := 100,
                             estado: Option<string> := None)
    : (r: Result<seq<Campeonato>>)
    ensures r.Err? <==> skip < 0 || limit < 0
    ensures r.Err? ==> r.error == NegativePagination
    ensures r.Ok? ==> |r.value| <= limit
    ensures r.Ok? ==> |r.value| == if skip >= |Matching(cs, estado)| then 0
                                   else Min(limit, |Matching(cs, estado)| - skip)
    ensures r.Ok? ==> forall c :: c in r.value ==> c in cs && MatchesEstado(c, estado)
    ensures r.Ok? ==> forall k :: 0 <= k < |r.value| ==>
      skip + k < |Matching(cs, estado)| && r.value[k] == Matching(cs, estado)[skip + k]
    ensures r.Ok? && skip == 0 ==>
      forall c :: c in cs && MatchesEstado(c, estado) ==> c in r.value || |r.value| == limit
  {
    var rows := Matching(cs, estado);
    PageWithin(rows, skip, limit);
    if skip == 0 && limit >= 0 then FirstPageComplete(rows, limit); Page(rows, skip, limit)
    else Page(rows, skip, limit)
  }

  /** A request without query parameters lists the first 100 championships,
      whatever their `estado`. */
  lemma ListarCampeonatosDefaults(cs: seq<Campeonato>)
    ensures ListarCampeonatos(cs) == Ok(cs[..Min(100, |cs|)])
  {
  }

  /** `obtener_campeonato`: the championship with that id, or 404. */
  function ObtenerCampeonato(cs: seq<Campeonato>, id: int): (r: Result<Campeonato>)
    ensures r.Err? <==> id !in Ids(cs)
    ensures r.Err? ==> r.error == NotFound(NoCampeonato)
    ensures r.Ok? ==> r.value.id == id && r.value in cs
  {
    match IndexOfId(cs, id)
    case None => Err(NotFound(NoCampeonato))
    case Some(i) => Ok(cs[i])
  }

  /** The rows of the pre-insert lookup `Campeonato.nombre == nombre`. */
  function MismoNombre(cs: seq<Campeonato>, nombre: string): (r: seq<Campeonato>)
    ensures forall c :: c in r <==> c in cs && c.nombre == Some(nombre)
  {
    Where(cs, (c: Campeonato) => c.nombre == Some(nombre))
  }

  /** What `crear_campeonato` decides before it writes anything. */
  function CrearCampeonatoCheck(cs: seq<Campeonato>, c: CampeonatoCreate): (r: Option<Error>)
    ensures r == Some(Invalid) <==> !CreateValid(c)
    ensures r == None <==> CreateValid(c) && forall x :: x in cs ==> x.nombre != Some(c.nombre)
    ensures r.Some? ==> r.value in {Invalid, Conflict, MultipleResults}
  {
    if !CreateValid(c) then Some(Invalid)
    else
      var rows := MismoNombre(cs, c.nombre);
      assert rows != [] ==> rows[0] in rows;
      if |rows| == 0 then None
      else if |rows| == 1 then Some(Conflict)
      else Some(MultipleResults)
  }

  /** Because `nombre` is UNIQUE, the pre-insert lookup finds at most one row,
      so a duplicate name is always answered with 400. */
  lemma {:induction false} DuplicateNombreIsConflict(cs: seq<Campeonato>, c: CampeonatoCreate)
    requires UniqueColumns(cs)
    ensures CrearCampeonatoCheck(cs, c) != Some(MultipleResults)
    ensures CreateValid(c) && (exists x :: x in cs && x.nombre == Some(c.nombre)) ==>
              CrearCampeonatoCheck(cs, c) == Some(Conflict)
  {
    var p := (x: Campeonato) => x.nombre == Some(c.nombre);
    WhereAtMostOne(cs, p);
  }

  /** `Campeonato(**campeonato.model_dump())` as the insert completes it: the
      next serial id, "activo" when no `estado` was given (a null attribute
      is left out of the INSERT, so the column default applies), and both
      timestamps from their default. */
  function NewCampeonato(id: int, c: CampeonatoCreate, now: Time): Campeonato {
    Campeonato(id, Some(c.nombre), Some(c.descripcion), c.fechaInicio, c.fechaFin,
               c.canton, c.parroquia, Some(c.estado.GetOr(EstadoDefault)), now, now)
  }

  /** `crear_campeonato` on the table: the pre-check, then the insert under
      the next serial id. Nothing is written when the check fails. */
  function CrearCampeonato(cs: seq<Campeonato>, nextId: int, c: CampeonatoCreate, now: Time)
    : (o: Outcome<Campeonato, Campeonato>)
    ensures o.result.Ok? <==> CreateValid(c) && forall x :: x in cs ==> x.nombre != Some(c.nombre)
    ensures o.result.Err? ==> o.rows == cs && o.result.error in {Invalid, Conflict, MultipleResults}
    ensures o.result.Err? ==> Some(o.result.error) == CrearCampeonatoCheck(cs, c)
    ensures o.result.Ok? ==>
      && |o.rows| == |cs| + 1 && o.rows[..|cs|] == cs
      && o.rows[|cs|].id == nextId && o.result.value == o.rows[|cs|]
  {
    match CrearCampeonatoCheck(cs, c)
    case Some(e) => Outcome(Err(e), cs)
    case None =>
      var row := NewCampeonato(nextId, c, now);
      assert (cs + [row])[..|cs|] == cs;
      Outcome(Ok(row), cs + [row])
  }

  /** A committed create keeps the table's constraints and advances the id
      sequence; the new row satisfies the response schema. */
  lemma CrearCampeonatoKeepsConstraints(cs: seq<Campeonato>, nextId: int, c: CampeonatoCreate, now: Time)
    requires Constraints(cs, nextId)
    ensures var o := CrearCampeonato(cs, nextId, c, now);
            && Constraints(o.rows, if o.result.Ok? then nextId + 1 else nextId)
            && Ids(o.rows) == (if o.result.Ok? then Ids(cs) + {nextId} else Ids(cs))
            && (o.result.Ok? ==> ResponseValid(o.result.value))
  {
    var o := CrearCampeonato(cs, nextId, c, now);
    if o.result.Ok? {
      AppendKeepsConstraints(cs, nextId, NewCampeonato(nextId, c, now));
    }
  }

  /** A created championship reads back as submitted, with `estado` "activo"
      when none was given and both timestamps at the insertion time. */
  lemma {:induction false} CreatedCampeonatoReadsBack(cs: seq<Campeonato>, nextId: int, c: CampeonatoCreate, now: Time)
    requires Constraints(cs, nextId)
    ensures var o := CrearCampeonato(cs, nextId, c, now);
            o.result.Ok? ==>
              && ObtenerCampeonato(o.rows, nextId) == o.result
              && o.result.value.nombre == Some(c.nombre) && o.result.value.descripcion == Some(c.descripcion)
              && o.result.value.fechaInicio == c.fechaInicio && o.result.value.fechaFin == c.fechaFin
              && o.result.value.canton == c.canton && o.result.value.parroquia == c.parroquia
              && o.result.value.estado == (if c.estado.None? then Some("activo") else c.estado)
              && o.result.value.createdAt == now && o.result.value.updatedAt == now
  {
    var o := CrearCampeonato(cs, nextId, c, now);
    if o.result.Ok? {
      var vs := o.rows;
      assert vs == cs + [NewCampeonato(nextId, c, now)];
      assert vs[|cs|] in vs;
      assert forall x :: x in cs ==> x.id < nextId;
      assert forall x :: x in vs && x.id == nextId ==> x == NewCampeonato(nextId, c, now);
    }
  }

  /** One item of `campeonato_update.model_dump(exclude_unset=True)`. */
  datatype CampeonatoAttr =
    | NombreAttr(nombre: Option<string>)
    | DescripcionAttr(descripcion: Option<string>)
    | FechaInicioAttr(fechaInicio: Option<Time>)
    | FechaFinAttr(fechaFin: Option<Time>)
    | CantonAttr(canton: Option<string>)
    | ParroquiaAttr(parroquia: Option<string>)
    | EstadoAttr(estado: Option<string>)

  /** `setattr(db_campeonato, field, value)`. */
  function SetAttr(c: Campeonato, a: CampeonatoAttr): Campeonato {
    match a
    case NombreAttr(v) => c.(nombre := v)
    case DescripcionAttr(v) => c.(descripcion := v)
    case FechaInicioAttr(v) => c.(fechaInicio := v)
    case FechaFinAttr(v) => c.(fechaFin := v)
    case CantonAttr(v) => c.(canton := v)
    case ParroquiaAttr(v) => c.(parroquia := v)
    case EstadoAttr(v) => c.(estado := v)
  }

  /** `model_dump(exclude_unset=True)`: the fields the body carried, in
      declaration order. */
  function UpdateData(p: CampeonatoUpdate): seq<CampeonatoAttr> {
    (if p.nombre.SetTo? then [NombreAttr(p.nombre.value)] else [])
    + ((if p.descripcion.SetTo? then [DescripcionAttr(p.descripcion.value)] else [])
    + ((if p.fechaInicio.SetTo? then [FechaInicioAttr(p.fechaInicio.value)] else [])
    + ((if p.fechaFin.SetTo? then [FechaFinAttr(p.fechaFin.value)] else [])
    + ((if p.canton.SetTo? then [CantonAttr(p.canton.value)] else [])
    + ((if p.parroquia.SetTo? then [ParroquiaAttr(p.parroquia.value)] else [])
    + ((if p.estado.SetTo? then [EstadoAttr(p.estado.value)] else [])
    + []))))))
  }

  /** The intended merge, field by field: a field the body carried takes the
      sent value (null included), every other column keeps its value. */
  function Patched(c: Campeonato, p: CampeonatoUpdate): Campeonato {
    c.(nombre := p.nombre.Over(c.nombre),
       descripcion := p.descripcion.Over(c.descripcion),
       fechaInicio := p.fechaInicio.Over(c.fechaInicio),
       fechaFin := p.fechaFin.Over(c.fechaFin),
       canton := p.canton.Over(c.canton),
       parroquia := p.parroquia.Over(c.parroquia),
       estado := p.estado.Over(c.estado))
  }

  /** The last four items of the dump (dates, place and state) set exactly
      the fields the body carried. */
  lemma {:induction false} LaterFieldsArePatched(c: Campeonato, p: CampeonatoUpdate)
    ensures ApplyAll(c, (if p.fechaFin.SetTo? then [FechaFinAttr(p.fechaFin.value)] else [])
                        + ((if p.canton.SetTo? then [CantonAttr(p.canton.value)] else [])
                        + ((if p.parroquia.SetTo? then [ParroquiaAttr(p.parroquia.value)] else [])
                        + ((if p.estado.SetTo? then [EstadoAttr(p.estado.value)] else [])
                        + []))), SetAttr)
         == c.(fechaFin := p.fechaFin.Over(c.fechaFin), canton := p.canton.Over(c.canton),
               parroquia := p.parroquia.Over(c.parroquia), estado := p.estado.Over(c.estado))
  {
    var s7 := (if p.estado.SetTo? then [EstadoAttr(p.estado.value)] else []) + [];
    var s6 := (if p.parroquia.SetTo? then [ParroquiaAttr(p.parroquia.value)] else []) + s7;
    var s5 := (if p.canton.SetTo? then [CantonAttr(p.canton.value)] else []) + s6;
    var c4 := c.(fechaFin := p.fechaFin.Over(c.fechaFin));
    ApplyAllOptional(c, p.fechaFin.SetTo?, FechaFinAttr(p.fechaFin.Over(c.fechaFin)), s5, SetAttr);
    var c5 := c4.(canton := p.canton.Over(c.canton));
    ApplyAllOptional(c4, p.canton.SetTo?, CantonAttr(p.canton.Over(c.canton)), s6, SetAttr);
    var c6 := c5.(parroquia := p.parroquia.Over(c.parroquia));
    ApplyAllOptional(c5, p.parroquia.SetTo?, ParroquiaAttr(p.parroquia.Over(c.parroquia)), s7, SetAttr);
    ApplyAllOptional(c6, p.estado.SetTo?, EstadoAttr(p.estado.Over(c.estado)), [], SetAttr);
  }

  /** The `setattr` loop over the dumped fields performs that merge. */
  lemma {:induction false} UpdateDataIsPatch(c: Campeonato, p: CampeonatoUpdate)
    ensures ApplyAll(c, UpdateData(p), SetAttr) == Patched(c, p)
  {
    var s4 := (if p.fechaFin.SetTo? then [FechaFinAttr(p.fechaFin.value)] else [])
              + ((if p.canton.SetTo? then [CantonAttr(p.canton.value)] else [])
              + ((if p.parroquia.SetTo? then [ParroquiaAttr(p.parroquia.value)] else [])
              + ((if p.estado.SetTo? then [EstadoAttr(p.estado.value)] else [])
              + [])));
    var s3 := (if p.fechaInicio.SetTo? then [FechaInicioAttr(p.fechaInicio.value)] else []) + s4;
    var s2 := (if p.descripcion.SetTo? then [DescripcionAttr(p.descripcion.value)] else []) + s3;
    var c1 := c.(nombre := p.nombre.Over(c.nombre));
    ApplyAllOptional(c, p.nombre.SetTo?, NombreAttr(p.nombre.Over(c.nombre)), s2, SetAttr);
    var c2 := c1.(descripcion := p.descripcion.Over(c.descripcion));
    ApplyAllOptional(c1, p.descripcion.SetTo?, DescripcionAttr(p.descripcion.Over(c.descripcion)), s3, SetAttr);
    var c3 := c2.(fechaInicio := p.fechaInicio.Over(c.fechaInicio));
    ApplyAllOptional(c2, p.fechaInicio.SetTo?, FechaInicioAttr(p.fechaInicio.Over(c.fechaInicio)), s4, SetAttr);
    LaterFieldsArePatched(c3, p);
  }

  /** Lines 97-99 of `actualizar_campeonato`: the loop applies the body to
      the loaded row. The id and the timestamps never change through it; a
      field the body did not carry keeps its value. */
  method ApplyUpdate(c: Campeonato, p: CampeonatoUpdate) returns (r: Campeonato)
    ensures r == Patched(c, p)
    ensures r.id == c.id && r.createdAt == c.createdAt && r.updatedAt == c.updatedAt
  {
    r := SetAttrs(c, UpdateData(p), SetAttr);
    UpdateDataIsPatch(c, p);
  }

  /** The update schema accepts bodies the response schema then refuses: a
      stored championship renamed to 101 characters passes `UpdateValid`,
      but `CampeonatoResponse` caps `nombre` at 100. */
  lemma UpdateCanOutgrowResponse()
    ensures var c := Campeonato(1, Some("Copa"), Some("Liga barrial"), None, None, None, None,
                                Some("activo"), 0, 0);
            var p := CampeonatoUpdate(SetTo(Some(seq(101, _ => 'a'))), Unset, Unset, Unset,
                                      Unset, Unset, Unset);
            && ResponseValid(c) && UpdateValid(p) && !ResponseValid(Patched(c, p))
  {
  }

  /** `actualizar_campeonato` on the table. The body is validated before the
      handler runs, then the row is looked up, patched and committed. The
      commit writes only when a column value changed, and only then does the
      `onupdate` hook stamp `updated_at`; it is rolled back when the new
      `nombre` is null or names another championship. */
  function ActualizarCampeonato(cs: seq<Campeonato>, id: int, p: CampeonatoUpdate, now: Time)
    : (o: Outcome<Campeonato, Campeonato>)
    ensures !UpdateValid(p) ==> o == Outcome(Err(Invalid), cs)
    ensures UpdateValid(p) && id !in Ids(cs) ==> o == Outcome(Err(NotFound(NoCampeonato)), cs)
    ensures o.result.Err? ==> o.rows == cs
    ensures o.result.Ok? ==> UpdateValid(p) && id in Ids(cs) && |o.rows| == |cs|
    ensures forall k :: 0 <= k < |cs| && cs[k].id != id ==> o.rows[k] == cs[k]
    ensures o.result.Err? ==> o.result.error in {Invalid, NotFound(NoCampeonato), Integrity}
    ensures o.result.Ok? <==>
      && UpdateValid(p) && id in Ids(cs)
      && var k := IndexOfId(cs, id).value;
         Patched(cs[k], p) == cs[k] || RowAccepted(cs, k, Patched(cs[k], p))
    ensures id in Ids(cs) ==>
      var k := IndexOfId(cs, id).value;
      && (o.result == Err(Integrity) <==>
            UpdateValid(p) && Patched(cs[k], p) != cs[k] && !RowAccepted(cs, k, Patched(cs[k], p)))
      && (o.result.Ok? ==>
            && o.rows[k].(updatedAt := cs[k].updatedAt) == Patched(cs[k], p)
            && o.rows[k].updatedAt == (if Patched(cs[k], p) == cs[k] then cs[k].updatedAt else now)
            && o.result.value == o.rows[k])
  {
    if !UpdateValid(p) then Outcome(Err(Invalid), cs)
    else
      match IndexOfId(cs, id)
      case None => Outcome(Err(NotFound(NoCampeonato)), cs)
      case Some(i) =>
        var pending := Patched(cs[i], p);
        if pending == cs[i] then Outcome(Ok(cs[i]), cs)
        else if !RowAccepted(cs, i, pending) then Outcome(Err(Integrity), cs)
        else
          var row := pending.(updatedAt := now);
          Outcome(Ok(row), cs[i := row])
  }

  /** A committed update keeps the table's constraints and its ids. */
  lemma ActualizarCampeonatoKeepsConstraints(cs: seq<Campeonato>, nextId: int, id: int, p: CampeonatoUpdate,
                                             now: Time)
    requires Constraints(cs, nextId)
    ensures var o := ActualizarCampeonato(cs, id, p, now);
            Constraints(o.rows, nextId) && Ids(o.rows) == Ids(cs)
  {
    var o := ActualizarCampeonato(cs, id, p, now);
    if o.result.Ok? {
      var i := IndexOfId(cs, id).value;
      var pending := Patched(cs[i], p);
      if pending != cs[i] {
        var row := pending.(updatedAt := now);
        assert o.rows == cs[i := row];
        ReplaceKeepsConstraints(cs, nextId, i, row);
      }
    }
  }

  /** An update that is answered with a championship leaves it readable under
      the same id, exactly as answered. */
  lemma ActualizarCampeonatoReadsBack(cs: seq<Campeonato>, nextId: int, id: int, p: CampeonatoUpdate, now: Time)
    requires Constraints(cs, nextId)
    ensures var o := ActualizarCampeonato(cs, id, p, now);
            o.result.Ok? ==> ObtenerCampeonato(o.rows, id) == o.result
  {
    var o := ActualizarCampeonato(cs, id, p, now);
    if o.result.Ok? {
      var i := IndexOfId(cs, id).value;
      ActualizarCampeonatoKeepsConstraints(cs, nextId, id, p, now);
      var j := IndexOfId(o.rows, id).value;
      assert o.rows[i].id == id;
      assert i == j;
    }
  }

  /** A body that carries no field changes nothing: the stored row, and with
      it `updated_at`, stays as it was. */
  lemma EmptyUpdateChangesNothing(cs: seq<Campeonato>, id: int, now: Time)
    requires id in Ids(cs)
    ensures ActualizarCampeonato(cs, id, CampeonatoUpdate(Unset, Unset, Unset, Unset, Unset, Unset, Unset), now)
         == Outcome(ObtenerCampeonato(cs, id), cs)
  {
  }

  /** Sending the same body again, at any later time, is answered with the
      same championship and writes nothing. */
  lemma ActualizarCampeonatoIdempotent(cs: seq<Campeonato>, nextId: int, id: int, p: CampeonatoUpdate,
                                       now: Time, later: Time)
    requires Constraints(cs, nextId)
    ensures var o := ActualizarCampeonato(cs, id, p, now);
            o.result.Ok? ==> ActualizarCampeonato(o.rows, id, p, later) == o
  {
    var o := ActualizarCampeonato(cs, id, p, now);
    if o.result.Ok? {
      var i := IndexOfId(cs, id).value;
      ActualizarCampeonatoKeepsConstraints(cs, nextId, id, p, now);
      assert o.rows[i].id == id;
      var j := IndexOfId(o.rows, id).value;
      assert i == j;
      assert Patched(o.rows[i], p) == o.rows[i];
    }
  }

  /** `eliminar_campeonato` on the table. A championship some report names
      cannot be deleted: the flush would null that report's NOT NULL
      `campeonato_id`, so the commit fails and is rolled back. */
  function EliminarCampeonato(cs: seq<Campeonato>, rs: seq<ReporteModel.ReporteJugador>, id: int)
    : (o: Outcome<Campeonato, ()>)
    ensures o.result.Ok? <==> id in Ids(cs) && !ReporteModel.ReferencesCampeonato(rs, id)
    ensures o.result.Err? ==> o.rows == cs
    ensures o.result.Err? ==>
      o.result.error == if id !in Ids(cs) then NotFound(NoCampeonato) else Integrity
    ensures o.result.Ok? ==> |o.rows| == |cs| - 1 && forall x :: x in o.rows ==> x in cs
  {
    match IndexOfId(cs, id)
    case None => Outcome(Err(NotFound(NoCampeonato)), cs)
    case Some(i) =>
      if ReporteModel.ReferencesCampeonato(rs, id) then Outcome(Err(Integrity), cs)
      else
        var rest := RemoveAt(cs, i);
        assert forall x :: x in rest ==> x in cs by {
          forall x | x in rest ensures x in cs {
            var k :| 0 <= k < |rest| && rest[k] == x;
            assert x == cs[if k < i then k else k + 1];
          }
        }
        Outcome(Ok(()), rest)
  }

  /** A committed delete keeps the constraints of both tables, every
      report's references included, removes exactly that id, and the
      championship reads back as missing afterwards. */
  lemma EliminarCampeonatoKeepsConstraints(cs: seq<Campeonato>, nextId: int, rs: seq<ReporteModel.ReporteJugador>,
                                           usuarioIds: set<int>, id: int)
    requires Constraints(cs, nextId)
    requires ReporteModel.ReferencesExist(rs, usuarioIds, Ids(cs))
    ensures var o := EliminarCampeonato(cs, rs, id);
            && Constraints(o.rows, nextId)
            && Ids(o.rows) == (if o.result.Ok? then Ids(cs) - {id} else Ids(cs))
            && ReporteModel.ReferencesExist(rs, usuarioIds, Ids(o.rows))
            && (o.result.Ok? ==> ObtenerCampeonato(o.rows, id) == Err(NotFound(NoCampeonato)))
  {
    var o := EliminarCampeonato(cs, rs, id);
    if o.result.Ok? {
      var i := IndexOfId(cs, id).value;
      assert o.rows == RemoveAt(cs, i);
      RemoveKeepsConstraints(cs, nextId, i);
      ReporteModel.CampeonatoRemovalKeepsReferences(rs, usuarioIds, Ids(cs), id);
    }
  }
}
