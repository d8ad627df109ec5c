# RF_API core, modelled in Dafny

RF_API is a FastAPI service over PostgreSQL. It exposes CRUD endpoints for three tables:

- `usuarios`: users of any role, players included.
- `campeonatos`: championships.
- `reportes_jugadores`: reports about a player in a championship.

This project models those three routers. It also models the SQLAlchemy tables they write and the pydantic schemas that check their bodies.

- **Values.** Rows, request bodies and responses are datatypes. An update body is a datatype of `Change` fields:
  - `Unset` is a field the request did not carry.
  - `SetTo(v)` is a field it did carry. An explicit JSON null is `SetTo(None)`.
- **Outcomes.** Every handler ends in a `Result`: `Ok`, or one `Error` for each way a request fails.
  - `Invalid`: the schema refuses the body (422).
  - `Conflict`: a duplicate found by the pre-check (400).
  - `NotFound`: the id is missing (404).
  - `MultipleResults`: `scalar_one_or_none` saw several rows (500).
  - `Integrity`: the commit broke a constraint and was rolled back (500).
  - `NegativePagination`: PostgreSQL refused a negative OFFSET or LIMIT (500).
- **Read-only handlers.** List and get are functions over a table.
- **Writing handlers.** Each writing handler has two forms:
  1. A function in its router module. It maps the table before the request to the answer and the table as committed (`Outcome`).
  2. A method of the `Database.Store` class. The class holds the three tables and one id sequence per table, and the method updates them in place. Each method is proved to produce exactly what the router function describes, and to keep `Store.Valid`.
- **`Store.Valid`.** Every declared column constraint holds:
  - serial ids;
  - UNIQUE on `cedula`, `username`, `email` and `nombre`;
  - NOT NULL on `email`, `nombre` and `titulo`;
  - both foreign keys of the reports.

  Every stored user and report can also be serialised by its response schema.
- **The update loop.** The `setattr` loop of the three update handlers is one generic `while` loop (`Common.SetAttrs`). It is proved equal to a fold, and for each table the fold is proved equal to a field-by-field merge (`Patched`).
- **Update commits.** The commit follows SQLAlchemy:
  - A patch that changes no column value issues no UPDATE, so `updated_at` keeps its value.
  - A changed row must satisfy NOT NULL and UNIQUE against the other rows, or the transaction is rolled back.

## Model

| member | source | states |
|---|---|---|
| Common.IndexOfKey | app/models/usuario.py:11 | the primary-key lookup finds a row carrying the key, and none exactly when no row carries it; shared by the three tables |
| Common.ReplaceKeys | app/models/usuario.py:11 | replacing a row by one with the same key keeps the set of keys |
| Common.AppendKeys | app/models/usuario.py:11 | appending a row adds exactly its key to the set of keys |
| Common.RemoveKeys | app/models/usuario.py:11 | under serial keys, removing a row drops exactly its key from the set of keys |
| UsuarioModel.IndexOfId | app/routers/usuarios.py:64-66 | the primary-key lookup finds a row carrying the id, and finds none exactly when no user has it |
| UsuarioModel.ReplaceKeepsConstraints | app/models/usuario.py:11-23 | replacing a row by one the commit accepts (email not null, no unique value shared with another row) keeps serial ids, UNIQUE and NOT NULL, and the set of ids |
| UsuarioModel.AppendKeepsConstraints | app/models/usuario.py:11-23 | inserting a row under the next id, sharing no unique value, keeps the constraints and adds exactly that id |
| UsuarioModel.RemoveKeepsConstraints | app/models/usuario.py:11-23 | deleting a row keeps the constraints and removes exactly its id |
| CampeonatoModel.IndexOfId | app/routers/campeonatos.py:67-69 | the primary-key lookup finds a row carrying the id, and finds none exactly when no championship has it |
| CampeonatoModel.ReplaceKeepsConstraints | app/models/campeonato.py:13-23 | replacing a row by one whose `nombre` is non-null and held by no other row keeps the constraints and the ids |
| CampeonatoModel.AppendKeepsConstraints | app/models/campeonato.py:13-23 | inserting under the next id with a fresh `nombre` keeps the constraints and adds exactly that id |
| CampeonatoModel.RemoveKeepsConstraints | app/models/campeonato.py:13-23 | deleting a row keeps the constraints and removes exactly its id |
| ReporteModel.IndexOfId | app/routers/reportes_jugadores.py:87-89 | the primary-key lookup finds a row carrying the id, and finds none exactly when no report has it |
| ReporteModel.ReplaceKeepsConstraints | app/models/reporte_jugador.py:13-26 | replacing a report by one with the same id and references and a non-null `titulo` keeps the constraints, the references and the ids |
| ReporteModel.AppendKeepsConstraints | app/models/reporte_jugador.py:13-26 | inserting under the next id, naming a stored user and championship, keeps the constraints and references and adds that id |
| ReporteModel.RemoveKeepsConstraints | app/models/reporte_jugador.py:13-26 | deleting a report keeps the constraints and every other reference, and removes exactly its id |
| ReporteModel.JugadorRemovalKeepsReferences | app/models/reporte_jugador.py:14 | the foreign key on `jugador_id` survives removing a user that no report names |
| ReporteModel.CampeonatoRemovalKeepsReferences | app/models/reporte_jugador.py:15-16 | the foreign key on `campeonato_id` survives removing a championship that no report names |
| UsuarioSchemas.ResponseOmitsPassword | app/schemas/usuario.py:40-44 | the response has no password: users differing only in password serialise alike |
| UsuarioSchemas.RolUnchecked | app/schemas/usuario.py:19-25 | `rol` is any string; changing it never changes whether a create body is accepted |
| CampeonatoSchemas.EstadoUnchecked | app/schemas/campeonato.py:15-18 | `estado` is never checked against its three documented values |
| ReporteSchemas.TipoReporteUnchecked | app/schemas/reporte_jugador.py:13-16 | `tipo_reporte` is never checked |
| Common.Where | app/routers/campeonatos.py:53-55 | a WHERE filter keeps exactly the rows satisfying the predicate, never more rows than it started with |
| Common.WhereConcat | app/routers/campeonatos.py:53-55 | filtering a concatenation is concatenating the filtered parts, so (with `Common.WhereSingleton`) the filter keeps the satisfying rows in storage order, each as often as it occurs |
| Common.WhereSingleton | app/routers/campeonatos.py:53-55 | a single row passes the filter exactly when it satisfies the predicate |
| Common.WhereAtLeastTwo | app/routers/usuarios.py:26-33 | a filter returns two or more rows exactly when two distinct stored rows satisfy the predicate |
| Common.WhereAtMostOne | app/models/campeonato.py:14 | a filter on a UNIQUE column returns at most one row |
| Common.Page | app/routers/usuarios.py:53-55 | OFFSET/LIMIT: refused when either is negative; otherwise at most `limit` rows, exactly `min(limit, n - skip)` of them, the `k`-th being row `skip + k` |
| Common.SetAttrs | app/routers/usuarios.py:92-94 | the `setattr` loop over the dumped body computes the left fold of the items over the object |
| UsuariosRouter.ListarUsuarios | app/routers/usuarios.py:46-55 | refused exactly on a negative skip or limit; otherwise the responses of the users at positions `skip ..` in storage order, at most `limit` of them |
| UsuariosRouter.ListarUsuariosDefaults | app/routers/usuarios.py:47-49 | a request without query parameters (skip 0, limit 100) lists the first 100 users in storage order |
| UsuariosRouter.ObtenerUsuario | app/routers/usuarios.py:58-73 | 404 exactly when no user has the id; otherwise a stored user with that id, without its password |
| UsuariosRouter.Colisiones | app/routers/usuarios.py:26-32 | the pre-insert lookup returns exactly the users sharing the new username, cedula or email |
| UsuariosRouter.CrearUsuarioCheck | app/routers/usuarios.py:26-37 | 422 exactly when the body is invalid; insertion exactly when it is valid and no user shares a unique value; for a valid body, the `scalar_one_or_none` error (500) exactly when two distinct users each share a unique value with it, and 400 otherwise |
| UsuariosRouter.TwoCollisionsRaise | app/routers/usuarios.py:33 | an instance of the two-collision case: a table satisfying every constraint, where the username belongs to one user and the email to another, so the lookup raises (500) instead of answering 400 |
| UsuariosRouter.CrearUsuario | app/routers/usuarios.py:20-43 | succeeds exactly when the body is valid and shares no unique value; on failure the table is unchanged and the error is the one `UsuariosRouter.CrearUsuarioCheck` decides (422, 400 or 500); on success one row is appended under the next id, storing the submitted password, and answered |
| UsuariosRouter.CrearUsuarioKeepsConstraints | app/routers/usuarios.py:39-43 | a create keeps the table's constraints, advances the sequence by one exactly on success, adds exactly the new id, and keeps every user serialisable |
| UsuariosRouter.CreatedUsuarioReadsBack | app/routers/usuarios.py:39-43 | after a create, getting the new id returns the submitted fields without the password, with both timestamps at the insertion time, and the stored row keeps the submitted password |
| UsuariosRouter.UpdateDataIsPatch | app/routers/usuarios.py:92-94 | setting the dumped fields one by one sets exactly the fields the body carried, to the sent values (null included), and keeps the rest |
| UsuariosRouter.ApplyUpdate | app/routers/usuarios.py:92-94 | the loop yields the merged row; only `email`, `telefono` and `direction` can differ from the loaded row |
| UsuariosRouter.PatchKeepsResponseValid | app/schemas/usuario.py:33-37 | an update the schema accepts and the commit accepts leaves the user serialisable by `UsuarioResponse` |
| UsuariosRouter.ActualizarUsuario | app/routers/usuarios.py:76-98 | succeeds exactly when the body is valid, the id exists and the merged row is unchanged or accepted by the commit; fails only with 422, 404 or rollback: 422 on an invalid body, then 404 on a missing id, then rollback (500) exactly when the merged row differs and breaks NOT NULL or UNIQUE; otherwise only that row changes, to the merge, with `updated_at` renewed exactly when a value changed |
| UsuariosRouter.ActualizarUsuarioKeepsConstraints | app/routers/usuarios.py:96-98 | an update keeps the table's constraints and its set of ids |
| UsuariosRouter.ActualizarUsuarioKeepsResponses | app/routers/usuarios.py:96-98 | an update keeps every stored user serialisable |
| UsuariosRouter.ActualizarUsuarioReadsBack | app/routers/usuarios.py:96-98 | after a successful update, getting the id returns exactly the answered user |
| UsuariosRouter.EmptyUpdateChangesNothing | app/routers/usuarios.py:92-96 | a body with no field answers the stored user and leaves the table, `updated_at` included, unchanged |
| UsuariosRouter.ActualizarUsuarioIdempotent | app/routers/usuarios.py:76-98 | repeating a successful update, at any later time, gives the same answer and writes nothing |
| UsuariosRouter.EliminarUsuario | app/routers/usuarios.py:101-117 | succeeds exactly when the user exists and no report names it; 404 or rollback otherwise, the table unchanged; on success exactly one row fewer, all of them old rows |
| UsuariosRouter.EliminarUsuarioKeepsConstraints | app/routers/usuarios.py:115-116 | a delete keeps the constraints and every report's references, removes exactly that id, and the user is missing afterwards |
| CampeonatosRouter.Matching | app/routers/campeonatos.py:53-55 | the filter selects exactly the championships with the given `estado` when it is truthy, and every championship when it is None or empty |
| CampeonatosRouter.ListarCampeonatos | app/routers/campeonatos.py:46-58 | refused exactly on a negative skip or limit; otherwise only matching championships, exactly `min(limit, matches - skip)` of them (none past the end), the `k`-th being match `skip + k`; from offset 0 every match unless the page is full |
| CampeonatosRouter.ListarCampeonatosDefaults | app/routers/campeonatos.py:46-49 | a request without query parameters (skip 0, limit 100, no estado) lists the first 100 championships in storage order |
| CampeonatosRouter.ObtenerCampeonato | app/routers/campeonatos.py:62-76 | 404 exactly when no championship has the id; otherwise a stored championship with that id |
| CampeonatosRouter.MismoNombre | app/routers/campeonatos.py:29-31 | the pre-insert lookup returns exactly the championships with the new name |
| CampeonatosRouter.CrearCampeonatoCheck | app/routers/campeonatos.py:29-36 | 422 exactly when the body is invalid; insertion exactly when it is valid and no championship has that name; otherwise 400 or the `scalar_one_or_none` error |
| CampeonatosRouter.DuplicateNombreIsConflict | app/routers/campeonatos.py:32-36 | under UNIQUE `nombre` the lookup never raises; a valid body naming an existing championship is answered 400 |
| CampeonatosRouter.CrearCampeonato | app/routers/campeonatos.py:23-42 | succeeds exactly when the body is valid and the name is new; on failure the table is unchanged and the error is the one `CampeonatosRouter.CrearCampeonatoCheck` decides (422 or 400); on success one row is appended under the next id and answered |
| CampeonatosRouter.CrearCampeonatoKeepsConstraints | app/routers/campeonatos.py:38-42 | a create keeps the constraints, advances the sequence exactly on success, adds exactly the new id, and the new row satisfies `CampeonatoResponse` |
| CampeonatosRouter.CreatedCampeonatoReadsBack | app/routers/campeonatos.py:38-42 | after a create, getting the new id returns the submitted fields, `estado` "activo" when none was given, and both timestamps at the insertion time |
| CampeonatosRouter.UpdateDataIsPatch | app/routers/campeonatos.py:97-99 | setting the dumped fields one by one sets exactly the fields the body carried and keeps the rest |
| CampeonatosRouter.ApplyUpdate | app/routers/campeonatos.py:97-99 | the loop yields the merged row; the id and both timestamps are unchanged by it |
| CampeonatosRouter.UpdateCanOutgrowResponse | app/schemas/campeonato.py:25-28 | a stored championship renamed to 101 characters passes the update schema but no longer satisfies `CampeonatoResponse` |
| CampeonatosRouter.ActualizarCampeonato | app/routers/campeonatos.py:80-103 | succeeds exactly when the body is valid, the id exists and the merged row is unchanged or accepted by the commit; fails only with 422, 404 or rollback: 422, then 404, then rollback exactly when the merged row differs and has a null or duplicate `nombre`; otherwise only that row changes, to the merge, with `updated_at` renewed exactly when a value changed |
| CampeonatosRouter.ActualizarCampeonatoKeepsConstraints | app/routers/campeonatos.py:101-103 | an update keeps the table's constraints and its set of ids |
| CampeonatosRouter.ActualizarCampeonatoReadsBack | app/routers/campeonatos.py:101-103 | after a successful update, getting the id returns exactly the answered championship |
| CampeonatosRouter.EmptyUpdateChangesNothing | app/routers/campeonatos.py:97-101 | a body with no field answers the stored championship and leaves the table, `updated_at` included, unchanged |
| CampeonatosRouter.ActualizarCampeonatoIdempotent | app/routers/campeonatos.py:80-103 | repeating a successful update, at any later time, gives the same answer and writes nothing |
| CampeonatosRouter.EliminarCampeonato | app/routers/campeonatos.py:107-125 | succeeds exactly when the championship exists and no report names it; 404 or rollback otherwise, the table unchanged |
| CampeonatosRouter.EliminarCampeonatoKeepsConstraints | app/routers/campeonatos.py:123-124 | a delete keeps the constraints and every report's references, removes exactly that id, and the championship is missing afterwards |
| ReportesRouter.Filtrados | app/routers/reportes_jugadores.py:68-74 | the two `is not None` filters select exactly the reports matching both; with neither, every report |
| ReportesRouter.ListarReportes | app/routers/reportes_jugadores.py:60-78 | refused exactly on a negative skip or limit; otherwise only matching reports, exactly `min(limit, matches - skip)` of them (none past the end), the `k`-th being match `skip + k`; from offset 0 every match unless the page is full |
| ReportesRouter.ListarReportesDefaults | app/routers/reportes_jugadores.py:60-64 | a request without query parameters (skip 0, limit 100, no filters) lists the first 100 reports in storage order |
| ReportesRouter.ObtenerReporte | app/routers/reportes_jugadores.py:82-96 | 404 exactly when no report has the id; otherwise a stored report with that id |
| ReportesRouter.CrearReporte | app/routers/reportes_jugadores.py:25-56 | succeeds exactly when the body is valid, the player exists and the championship exists; the errors come in that order (422, player 404, championship 404) with the table unchanged; on success one row is appended under the next id |
| ReportesRouter.CrearReporteKeepsConstraints | app/routers/reportes_jugadores.py:52-56 | a create keeps the constraints and both foreign keys, advances the sequence exactly on success, and keeps every report serialisable |
| ReportesRouter.CreatedReporteReadsBack | app/routers/reportes_jugadores.py:52-56 | after a create, getting the new id returns the submitted fields, no file, and the insertion time as report date and both timestamps |
| ReportesRouter.UpdateDataIsPatch | app/routers/reportes_jugadores.py:118-120 | setting the dumped fields one by one sets exactly the fields the body carried and keeps the rest |
| ReportesRouter.ApplyUpdate | app/routers/reportes_jugadores.py:118-120 | the loop yields the merged row; only `titulo`, `descripcion`, `tipo_reporte` and `archivo_pdf_url` can differ, so player and championship never change |
| ReportesRouter.PatchKeepsResponseValid | app/schemas/reporte_jugador.py:24-29 | an update the schema and the commit accept leaves the report serialisable by `ReporteJugadorResponse` |
| ReportesRouter.ActualizarReporte | app/routers/reportes_jugadores.py:100-124 | succeeds exactly when the body is valid, the id exists and the merged row is unchanged or accepted by the commit; fails only with 422, 404 or rollback: 422, then 404, then rollback exactly when the merged row differs and has a null `titulo`; otherwise only that row changes, to the merge, with `updated_at` renewed exactly when a value changed |
| ReportesRouter.ActualizarReporteKeepsConstraints | app/routers/reportes_jugadores.py:122-124 | an update keeps the constraints, the ids and both foreign keys |
| ReportesRouter.ActualizarReporteKeepsResponses | app/routers/reportes_jugadores.py:122-124 | an update keeps every stored report serialisable |
| ReportesRouter.ActualizarReporteReadsBack | app/routers/reportes_jugadores.py:122-124 | after a successful update, getting the id returns exactly the answered report |
| ReportesRouter.EmptyUpdateChangesNothing | app/routers/reportes_jugadores.py:118-122 | a body with no field answers the stored report and leaves the table, `updated_at` included, unchanged |
| ReportesRouter.ActualizarReporteIdempotent | app/routers/reportes_jugadores.py:100-124 | repeating a successful update, at any later time, gives the same answer and writes nothing |
| ReportesRouter.EliminarReporte | app/routers/reportes_jugadores.py:128-146 | succeeds exactly when the report exists (nothing references a report); otherwise 404 with the table unchanged |
| ReportesRouter.EliminarReporteKeepsConstraints | app/routers/reportes_jugadores.py:144-145 | a delete keeps the constraints and references, removes exactly that id, and the report is missing afterwards |
| Database.Store.constructor | app/main.py:25 | empty tables, every id sequence at 1, all invariants holding |
| Database.Store.CrearUsuario | app/routers/usuarios.py:20-43 | keeps `Valid`; the answer and the users table are those of `UsuariosRouter.CrearUsuario`; the sequence advances exactly on success; the other tables are untouched |
| Database.Store.ActualizarUsuario | app/routers/usuarios.py:76-98 | keeps `Valid`; runs the `setattr` loop and the commit checks in place, with the answer and users table of `UsuariosRouter.ActualizarUsuario`; nothing else changes |
| Database.Store.EliminarUsuario | app/routers/usuarios.py:101-117 | keeps `Valid`, referential integrity included; answer and users table as `UsuariosRouter.EliminarUsuario`; nothing else changes |
| Database.Store.CrearCampeonato | app/routers/campeonatos.py:23-42 | keeps `Valid`; answer and championships table as `CampeonatosRouter.CrearCampeonato`; the sequence advances exactly on success |
| Database.Store.ActualizarCampeonato | app/routers/campeonatos.py:80-103 | keeps `Valid`; answer and championships table as `CampeonatosRouter.ActualizarCampeonato`; nothing else changes |
| Database.Store.EliminarCampeonato | app/routers/campeonatos.py:107-125 | keeps `Valid`, referential integrity included; answer and championships table as `CampeonatosRouter.EliminarCampeonato` |
| Database.Store.CrearReporte | app/routers/reportes_jugadores.py:25-56 | keeps `Valid`; answer and reports table as `ReportesRouter.CrearReporte` against the stored user and championship ids |
| Database.Store.ActualizarReporte | app/routers/reportes_jugadores.py:100-124 | keeps `Valid`; answer and reports table as `ReportesRouter.ActualizarReporte`; nothing else changes |
| Database.Store.EliminarReporte | app/routers/reportes_jugadores.py:128-146 | keeps `Valid`; answer and reports table as `ReportesRouter.EliminarReporte`; nothing else changes |

## Left out

- UsuarioSchemas.IsEmail: `EmailStr` is approximated by "an '@' with a character on each side". The email validator's full address grammar is not modelled. Neither is its normalisation of the domain part.
- HTTP itself is not modelled: status codes, JSON encoding, routing and dependency injection. Each status code is named by an `Error` constructor.
- `app/main.py` mounts only the user router. The model treats all three routers as reachable.
- The async session and the database round trips are reduced to one atomic step per request. Concurrent requests, and the race between the uniqueness pre-check and the insert, are not modelled.
- The clock is a parameter, `now`. Time zones are not modelled: the championship and report columns are naive while the user timestamps are timezone-aware. Neither is the conversion of `datetime` values.
- Ids are unbounded integers. The 32-bit range of the `Integer` columns and sequence exhaustion are not modelled.
- Storage order stands in for the unspecified row order of a query without ORDER BY.
- A failed `CampeonatoResponse` validation of a stored row (a 500 on get, list or update) is not an error outcome of the model. `CampeonatosRouter.UpdateCanOutgrowResponse` shows that the update schema lets such rows be stored.
- An empty update body, or one that repeats the stored values, does not stamp `updated_at`. One might expect every update to stamp it. The model follows the code: SQLAlchemy issues no UPDATE when no column value changed, so the `onupdate` hook never runs.
- Deleting a user or championship that a report names is a rolled-back transaction (`Integrity`), because the relationships do not cascade. The flush would null a NOT NULL foreign key. The exact error raised by the driver is not modelled.
- `archivo_pdf_url` is only a nullable string that an update can set. Uploading or serving the PDF is not part of this model.
