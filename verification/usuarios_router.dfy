/** The read-only handlers of the user router (`listar_usuarios`,
    `obtener_usuario`) as functions over the `usuarios` table, and the pieces
    the writing handlers are built from: the uniqueness pre-check of
    `crear_usuario`, the row it inserts, and the `setattr` loop of
    `actualizar_usuario`. The writing handlers themselves are methods of
    `Database.Store`. */
module UsuariosRouter {
  import opened Common
  import opened UsuarioModel
  import opened UsuarioSchemas
  import ReporteModel

  function Responses(us: seq<Usuario>): (r: seq<UsuarioResponse>)
    ensures |r| == |us|
    ensures forall k :: 0 <= k < |us| ==> r[k] == ToResponse(us[k])
  {
    seq(|us|, k requires 0 <= k < |us| => ToResponse(us[k]))
  }

  /** `listar_usuarios`: no filter, then OFFSET `skip` LIMIT `limit`, in
      storage order. */
  function ListarUsuarios(us: seq<Usuario>, skip: int := 0, limit: int := 100): (r: Result<seq<UsuarioResponse>>)
    ensures r.Err? <==> skip < 0 || limit < 0
    ensures r.Err? ==> r.error == NegativePagination
    ensures r.Ok? ==> |r.value| <= limit
    ensures r.Ok? ==> |r.value| == if skip >= |us| then 0 else Min(limit, |us| - skip)
    ensures r.Ok? ==> forall k :: 0 <= k < |r.value| ==> r.value[k] == ToResponse(us[skip + k])
  {
    match Page(us, skip, limit)
    case Err(e) => Err(e)
    case Ok(rows) => Ok(Responses(rows))
  }

  /** A request without query parameters lists the first 100 users. */
  lemma ListarUsuariosDefaults(us: seq<Usuario>)
    ensures ListarUsuarios(us) == Ok(Responses(us[..Min(100, |us|)]))
  {
  }

  /** `obtener_usuario`: the user with that id, or 404. */
  function ObtenerUsuario(us: seq<Usuario>, id: int): (r: Result<UsuarioResponse>)
    ensures r.Err? <==> id !in Ids(us)
    ensures r.Err? ==> r.error == NotFound(NoUsuario)
    ensures r.Ok? ==> r.value.id == id && exists u :: u in us && r.value == ToResponse(u)
  {
    match IndexOfId(us, id)
    case None => Err(NotFound(NoUsuario))
    case Some(i) =>
      assert us[i] in us;
      Ok(ToResponse(us[i]))
  }

  /** The pre-insert lookup matches a user holding the new username, the new
      cedula or the new email. */
  predicate SharesUniqueValue(u: Usuario, c: UsuarioCreate) {
    u.username == c.username || u.cedula == c.cedula || u.email == Some(c.email)
  }

  /** The rows of that lookup, in storage order. */
  function Colisiones(us: seq<Usuario>, c: UsuarioCreate): (r: seq<Usuario>)
    ensures forall u :: u in r <==> u in us && SharesUniqueValue(u, c)
  {
    Where(us, (u: Usuario) => SharesUniqueValue(u, c))
  }

  /** What `crear_usuario` decides before it writes anything: the request
      fails its schema, or the lookup returns one row (400) or several rows
      (`scalar_one_or_none` raises), or it returns none and the row is
      inserted. */
  function CrearUsuarioCheck(us: seq<Usuario>, c: UsuarioCreate): (r: Option<Error>)
    ensures r == Some(Invalid) <==> !CreateValid(c)
    ensures r == None <==> CreateValid(c) && forall u :: u in us ==> !SharesUniqueValue(u, c)
    ensures r.Some? ==> r.value in {Invalid, Conflict, MultipleResults}
    ensures CreateValid(c) ==>
      (r == Some(MultipleResults) <==>
       exists i, j :: 0 <= i < j < |us| && SharesUniqueValue(us[i], c) && SharesUniqueValue(us[j], c))
  {
    if !CreateValid(c) then Some(Invalid)
    else
      var rows := Colisiones(us, c);
      assert rows != [] ==> rows[0] in rows;
      WhereAtLeastTwo(us, (u: Usuario) => SharesUniqueValue(u, c));
      if |rows| == 0 then None
      else if |rows| == 1 then Some(Conflict)
      else Some(MultipleResults)
  }

  /** A valid table in which the new user's username belongs to one user and
      its email to another: the lookup finds two rows and raises instead of
      answering 400. */
  lemma TwoCollisionsRaise()
    ensures var a := Usuario(1, "Ana", "Paz", "0101", "ana", "secreto", Some("a@x.ec"),
                             None, None, None, None, None, "Jugador", 0, 0);
            var b := Usuario(2, "Luis", "Paz", "0202", "luis", "secreto", Some("l@x.ec"),
                             None, None, None, None, None, "Jugador", 0, 0);
            var c := UsuarioCreate("Ana", "Vera", "0303", "ana", "l@x.ec",
                                   None, None, None, None, None, "Jugador", "secreto");
            && Constraints([a, b], 3)
            && CrearUsuarioCheck([a, b], c) == Some(MultipleResults)
  {
    var a := Usuario(1, "Ana", "Paz", "0101", "ana", "secreto", Some("a@x.ec"),
                     None, None, None, None, None, "Jugador", 0, 0);
    var b := Usuario(2, "Luis", "Paz", "0202", "luis", "secreto", Some("l@x.ec"),
                     None, None, None, None, None, "Jugador", 0, 0);
    var c := UsuarioCreate("Ana", "Vera", "0303", "ana", "l@x.ec",
                           None, None, None, None, None, "Jugador", "secreto");
    assert IsEmail(c.email) by { assert c.email[1] == '@'; }
    assert SharesUniqueValue(a, c) && SharesUniqueValue(b, c);
    var rows := Colisiones([a, b], c);
    assert a in rows && b in rows && a != b;
  }

  /** `Usuario(**usuario.model_dump())` as the insert completes it: the
      submitted fields, the next serial id, and both timestamps from their
      default. */
  function NewUsuario(id: int, c: UsuarioCreate, now: Time): Usuario {
    Usuario(id, c.nombres, c.apellidos, c.cedula, c.username, c.password, Some(c.email),
            c.telefono, c.direction, c.canton, c.parroquia, c.barrio, c.rol, now, now)
  }

  /** `crear_usuario` on the table: the pre-check, then the insert under the
      next serial id. Nothing is written when the check fails. */
  function CrearUsuario(us: seq<Usuario>, nextId: int, c: UsuarioCreate, now: Time)
    : (o: Outcome<Usuario, UsuarioResponse>)
    ensures o.result.Ok? <==> CreateValid(c) && forall u :: u in us ==> !SharesUniqueValue(u, c)
    ensures o.result.Err? ==> o.rows == us && o.result.error in {Invalid, Conflict, MultipleResults}
    ensures o.result.Err? ==> Some(o.result.error) == CrearUsuarioCheck(us, c)
    ensures o.result.Ok? ==>
      && |o.rows| == |us| + 1 && o.rows[..|us|] == us
      && o.rows[|us|].id == nextId && o.rows[|us|].password == c.password
      && o.result.value == ToResponse(o.rows[|us|])
  {
    match CrearUsuarioCheck(us, c)
    case Some(e) => Outcome(Err(e), us)
    case None =>
      var row := NewUsuario(nextId, c, now);
      assert (us + [row])[..|us|] == us;
      Outcome(Ok(ToResponse(row)), us + [row])
  }

  /** A committed create keeps the table's constraints, advances the id
      sequence, and leaves every stored user serialisable. */
  lemma CrearUsuarioKeepsConstraints(us: seq<Usuario>, nextId: int, c: UsuarioCreate, now: Time)
    requires Constraints(us, nextId)
    requires forall u :: u in us ==> ResponseValid(ToResponse(u))
    ensures var o := CrearUsuario(us, nextId, c, now);
            && Constraints(o.rows, if o.result.Ok? then nextId + 1 else nextId)
            && Ids(o.rows) == (if o.result.Ok? then Ids(us) + {nextId} else Ids(us))
            && forall u :: u in o.rows ==> ResponseValid(ToResponse(u))
  {
    var o := CrearUsuario(us, nextId, c, now);
    if o.result.Ok? {
      var row := NewUsuario(nextId, c, now);
      forall u | u in us
        ensures u.cedula != row.cedula && u.username != row.username && u.email != row.email
      {
        assert !SharesUniqueValue(u, c);
      }
      AppendKeepsConstraints(us, nextId, row);
    }
  }

  /** A created user reads back as submitted, without its password, with
      both timestamps at the insertion time. */
  lemma {:induction false} CreatedUsuarioReadsBack(us: seq<Usuario>, nextId: int, c: UsuarioCreate, now: Time)
    requires Constraints(us, nextId)
    ensures var o := CrearUsuario(us, nextId, c, now);
            o.result.Ok? ==>
              && ObtenerUsuario(o.rows, nextId) == o.result
              && o.result.value
                 == UsuarioResponse(nextId, c.nombres, c.apellidos, c.cedula, c.username, Some(c.email),
                                    c.telefono, c.direction, c.canton, c.parroquia, c.barrio, c.rol,
                                    now, now)
              && o.rows[|us|].password == c.password
  {
    var o := CrearUsuario(us, nextId, c, now);
    if o.result.Ok? {
      var vs := o.rows;
      assert vs == us + [NewUsuario(nextId, c, now)];
      assert vs[|us|] in vs;
      assert forall u :: u in us ==> u.id < nextId;
      assert forall u :: u in vs && u.id == nextId ==> u == NewUsuario(nextId, c, now);
    }
  }

  /** One item of `usuario_update.model_dump(exclude_unset=True)`. */
  datatype UsuarioAttr =
    | EmailAttr(email: Option<string>)
    | TelefonoAttr(telefono: Option<string>)
    | DirectionAttr(direction: Option<string>)

  /** `setattr(db_usuario, field, value)`. */
  function SetAttr(u: Usuario, a: UsuarioAttr): Usuario {
    match a
    case EmailAttr(v) => u.(email := v)
    case TelefonoAttr(v) => u.(telefono := v)
    case DirectionAttr(v) => u.(direction := v)
  }

  /** `model_dump(exclude_unset=True)`: the fields the body carried, in
      declaration order. */
  function UpdateData(p: UsuarioUpdate): seq<UsuarioAttr> {
    (if p.email.SetTo? then [EmailAttr(p.email.value)] else [])
    + ((if p.telefono.SetTo? then [TelefonoAttr(p.telefono.value)] else [])
    + ((if p.direction.SetTo? then [DirectionAttr(p.direction.value)] else [])
    + []))
  }

  /** The intended merge, field by field: a field the body carried takes the
      sent value (null included), every other column keeps its value. */
  function Patched(u: Usuario, p: UsuarioUpdate): Usuario {
    u.(email := p.email.Over(u.email),
       telefono := p.telefono.Over(u.telefono),
       direction := p.direction.Over(u.direction))
  }

  /** The `setattr` loop over the dumped fields performs that merge. */
  lemma {:induction false} UpdateDataIsPatch(u: Usuario, p: UsuarioUpdate)
    ensures ApplyAll(u, UpdateData(p), SetAttr) == Patched(u, p)
  {
    var s3 := (if p.direction.SetTo? then [DirectionAttr(p.direction.value)] else []) + [];
    var s2 := (if p.telefono.SetTo? then [TelefonoAttr(p.telefono.value)] else []) + s3;
    var u1 := u.(email := p.email.Over(u.email));
    ApplyAllOptional(u, p.email.SetTo?, EmailAttr(p.email.Over(u.email)), s2, SetAttr);
    var u2 := u1.(telefono := p.telefono.Over(u.telefono));
    ApplyAllOptional(u1, p.telefono.SetTo?, TelefonoAttr(p.telefono.Over(u.telefono)), s3, SetAttr);
    ApplyAllOptional(u2, p.direction.SetTo?, DirectionAttr(p.direction.Over(u.direction)), [], SetAttr);
  }

  /** Lines 92-94 of `actualizar_usuario`: the loop applies the body to the
      loaded row. Only `email`, `telefono` and `direction` can change; a
      field the body did not carry keeps its value. */
  method ApplyUpdate(u: Usuario, p: UsuarioUpdate) returns (r: Usuario)
    ensures r == Patched(u, p)
    ensures r.(email := u.email, telefono := u.telefono, direction := u.direction) == u
  {
    r := SetAttrs(u, UpdateData(p), SetAttr);
    UpdateDataIsPatch(u, p);
  }

  /** `actualizar_usuario` on the table. The body is validated before the
      handler runs, then the row is looked up, patched and committed. The
      commit writes only when a column value changed, and only then does the
      `onupdate` hook stamp `updated_at`; it is rolled back when the new
      `email` is null or belongs to another user. */
  function ActualizarUsuario(us: seq<Usuario>, id: int, p: UsuarioUpdate, now: Time)
    : (o: Outcome<Usuario, UsuarioResponse>)
    ensures !UpdateValid(p) ==> o == Outcome(Err(Invalid), us)
    ensures UpdateValid(p) && id !in Ids(us) ==> o == Outcome(Err(NotFound(NoUsuario)), us)
    ensures o.result.Err? ==> o.rows == us
    ensures o.result.Ok? ==> UpdateValid(p) && id in Ids(us) && |o.rows| == |us|
    ensures forall k :: 0 <= k < |us| && us[k].id != id ==> o.rows[k] == us[k]
    ensures o.result.Err? ==> o.result.error in {Invalid, NotFound(NoUsuario), Integrity}
    ensures o.result.Ok? <==>
      && UpdateValid(p) && id in Ids(us)
      && var k := IndexOfId(us, id).value;
         Patched(us[k], p) == us[k] || RowAccepted(us, k, Patched(us[k], p))
    ensures id in Ids(us) ==>
      var k := IndexOfId(us, id).value;
      && (o.result == Err(Integrity) <==>
            UpdateValid(p) && Patched(us[k], p) != us[k] && !RowAccepted(us, k, Patched(us[k], p)))
      && (o.result.Ok? ==>
            && o.rows[k].(updatedAt := us[k].updatedAt) == Patched(us[k], p)
            && o.rows[k].updatedAt == (if Patched(us[k], p) == us[k] then us[k].updatedAt else now)
            && o.result.value == ToResponse(o.rows[k]))
  {
    if !UpdateValid(p) then Outcome(Err(Invalid), us)
    else
      match IndexOfId(us, id)
      case None => Outcome(Err(NotFound(NoUsuario)), us)
      case Some(i) =>
        var pending := Patched(us[i], p);
        if pending == us[i] then Outcome(Ok(ToResponse(us[i])), us)
        else if !RowAccepted(us, i, pending) then Outcome(Err(Integrity), us)
        else
          var row := pending.(updatedAt := now);
          Outcome(Ok(ToResponse(row)), us[i := row])
  }

  /** An accepted update keeps the row serialisable: the only column a body
      can set to a new string is `email`, which the update schema checks. */
  lemma PatchKeepsResponseValid(u: Usuario, p: UsuarioUpdate)
    requires ResponseValid(ToResponse(u)) && UpdateValid(p)
    requires Patched(u, p).email.Some?
    ensures ResponseValid(ToResponse(Patched(u, p)))
  {
  }

  /** A committed update keeps the table's constraints and its ids. */
  lemma ActualizarUsuarioKeepsConstraints(us: seq<Usuario>, nextId: int, id: int, p: UsuarioUpdate, now: Time)
    requires Constraints(us, nextId)
    ensures var o := ActualizarUsuario(us, id, p, now);
            Constraints(o.rows, nextId) && Ids(o.rows) == Ids(us)
  {
    var o := ActualizarUsuario(us, id, p, now);
    if o.result.Ok? {
      var i := IndexOfId(us, id).value;
      var pending := Patched(us[i], p);
      if pending != us[i] {
        var row := pending.(updatedAt := now);
        assert o.rows == us[i := row];
        ReplaceKeepsConstraints(us, nextId, i, row);
      }
    }
  }

  /** Every stored user stays serialisable through an update: the only new
      string a body can store is an `email` the update schema checked. */
  lemma ActualizarUsuarioKeepsResponses(us: seq<Usuario>, id: int, p: UsuarioUpdate, now: Time)
    requires forall u :: u in us ==> ResponseValid(ToResponse(u))
    ensures var o := ActualizarUsuario(us, id, p, now);
            forall u :: u in o.rows ==> ResponseValid(ToResponse(u))
  {
    var o := ActualizarUsuario(us, id, p, now);
    if o.result.Ok? {
      var i := IndexOfId(us, id).value;
      var pending := Patched(us[i], p);
      if pending != us[i] {
        var row := pending.(updatedAt := now);
        assert o.rows == us[i := row];
        assert us[i] in us;
        PatchKeepsResponseValid(us[i], p);
        forall u | u in o.rows ensures ResponseValid(ToResponse(u)) {
          var k :| 0 <= k < |o.rows| && o.rows[k] == u;
          if k != i { assert us[k] in us; }
        }
      }
    }
  }

  /** An update that is answered with a user leaves that user readable under
      the same id, exactly as answered. */
  lemma ActualizarUsuarioReadsBack(us: seq<Usuario>, nextId: int, id: int, p: UsuarioUpdate, now: Time)
    requires Constraints(us, nextId)
    ensures var o := ActualizarUsuario(us, id, p, now);
            o.result.Ok? ==> ObtenerUsuario(o.rows, id) == o.result
  {
    var o := ActualizarUsuario(us, id, p, now);
    if o.result.Ok? {
      var i := IndexOfId(us, id).value;
      ActualizarUsuarioKeepsConstraints(us, nextId, id, p, now);
      var j := IndexOfId(o.rows, id).value;
      assert o.rows[i].id == id;
      assert i == j;
    }
  }

  /** A body that carries no field changes nothing: the stored row, and with
      it `updated_at`, stays as it was. */
  lemma EmptyUpdateChangesNothing(us: seq<Usuario>, id: int, now: Time)
    requires id in Ids(us)
    ensures ActualizarUsuario(us, id, UsuarioUpdate(Unset, Unset, Unset), now)
         == Outcome(ObtenerUsuario(us, id), us)
  {
  }

  /** Sending the same body again, at any later time, is answered with the
      same user and writes nothing. */
  lemma ActualizarUsuarioIdempotent(us: seq<Usuario>, nextId: int, id: int, p: UsuarioUpdate,
                                    now: Time, later: Time)
    requires Constraints(us, nextId)
    ensures var o := ActualizarUsuario(us, id, p, now);
            o.result.Ok? ==> ActualizarUsuario(o.rows, id, p, later) == o
  {
    var o := ActualizarUsuario(us, id, p, now);
    if o.result.Ok? {
      var i := IndexOfId(us, id).value;
      ActualizarUsuarioKeepsConstraints(us, nextId, id, p, now);
      assert o.rows[i].id == id;
      var j := IndexOfId(o.rows, id).value;
      assert i == j;
      assert Patched(o.rows[i], p) == o.rows[i];
    }
  }

  /** `eliminar_usuario` on the table. A user some report names as its player
      cannot be deleted: the flush would null that report's NOT NULL
      `jugador_id`, so the commit fails and is rolled back. */
  function EliminarUsuario(us: seq<Usuario>, rs: seq<ReporteModel.ReporteJugador>, id: int)
    : (o: Outcome<Usuario, ()>)
    ensures o.result.Ok? <==> id in Ids(us) && !ReporteModel.ReferencesJugador(rs, id)
    ensures o.result.Err? ==> o.rows == us
    ensures o.result.Err? ==>
      o.result.error == if id !in Ids(us) then NotFound(NoUsuario) else Integrity
    ensures o.result.Ok? ==> |o.rows| == |us| - 1 && forall u :: u in o.rows ==> u in us
  {
    match IndexOfId(us, id)
    case None => Outcome(Err(NotFound(NoUsuario)), us)
    case Some(i) =>
      if ReporteModel.ReferencesJugador(rs, id) then Outcome(Err(Integrity), us)
      else
        var rest := RemoveAt(us, i);
        assert forall u :: u in rest ==> u in us by {
          forall u | u in rest ensures u in us {
            var k :| 0 <= k < |rest| && rest[k] == u;
            assert u == us[if k < i then k else k + 1];
          }
        }
        Outcome(Ok(()), rest)
  }

  /** A committed delete keeps the constraints of both tables, every
      report's references included, removes exactly that id, and the user
      reads back as missing afterwards. */
  lemma EliminarUsuarioKeepsConstraints(us: seq<Usuario>, nextId: int, rs: seq<ReporteModel.ReporteJugador>,
                                        campeonatoIds: set<int>, id: int)
    requires Constraints(us, nextId)
    requires ReporteModel.ReferencesExist(rs, Ids(us), campeonatoIds)
    ensures var o := EliminarUsuario(us, rs, id);
            && Constraints(o.rows, nextId)
            && Ids(o.rows) == (if o.result.Ok? then Ids(us) - {id} else Ids(us))
            && ReporteModel.ReferencesExist(rs, Ids(o.rows), campeonatoIds)
            && (o.result.Ok? ==> ObtenerUsuario(o.rows, id) == Err(NotFound(NoUsuario)))
  {
    var o := EliminarUsuario(us, rs, id);
    if o.result.Ok? {
      var i := IndexOfId(us, id).value;
      assert o.rows == RemoveAt(us, i);
      RemoveKeepsConstraints(us, nextId, i);
      ReporteModel.JugadorRemovalKeepsReferences(rs, Ids(us), campeonatoIds, id);
    }
  }
}
