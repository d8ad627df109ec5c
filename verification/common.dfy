/** Vocabulary shared by the three tables: optional values, the fields of a
    sparse update body, the outcomes of the handlers, and the query building
    blocks the routers use (a WHERE filter, a primary-key lookup, OFFSET/LIMIT
    and the `setattr` loop of the update handlers). */
module Common {

  /** An abstract clock reading. Every handler that writes receives the
      current time as a parameter instead of calling `datetime.now`. */
  type Time = nat

  datatype Option<+T> = None | Some(value: T) {
    function GetOr(default: T): T {
      if Some? then value else default
    }
  }

  /** One field of an update body. `Unset` when the request did not carry the
      field, so that `model_dump(exclude_unset=True)` leaves it out; `SetTo(v)`
      when it did. The updatable columns are all optional in the update
      schemas, so `v` is itself an `Option` and an explicit JSON null is
      `SetTo(None)`. */
  datatype Change<+T> = Unset | SetTo(value: T) {
    function Over(current: T): T {
      if SetTo? then value else current
    }
  }

  /** What a 404 detail names ("Usuario no encontrado", "Jugador no
      encontrado", ...). */
  datatype Missing = NoUsuario | NoJugador | NoCampeonato | NoReporte

  /** The ways a handler ends without its normal result. */
  datatype Error =
    | Invalid                    // the body fails its pydantic schema (422)
    | Conflict                   // the uniqueness pre-check found a row (400)
    | NotFound(missing: Missing) // an id that no row carries (404)
    | MultipleResults            // `scalar_one_or_none` saw several rows (500)
    | Integrity                  // the commit broke a NOT NULL, UNIQUE or FOREIGN KEY constraint and was rolled back (500)
    | NegativePagination         // PostgreSQL refuses a negative OFFSET or LIMIT (500)

  datatype Result<+T> = Ok(value: T) | Err(error: Error)

  /** What a writing handler leaves behind: its answer and the table as the
      transaction committed it (the old table after a rollback). */
  datatype Outcome<+Row, +R> = Outcome(result: Result<R>, rows: seq<Row>)

  /** pydantic's `Field(min_length=lo, max_length=hi)` on a string. */
  predicate Bounded(s: string, lo: nat, hi: nat) {
    lo <= |s| <= hi
  }

  /** The same bound on an `Optional[str]` field: None always passes. */
  predicate BoundedIfPresent(s: Option<string>, lo: nat, hi: nat) {
    s.Some? ==> Bounded(s.value, lo, hi)
  }

  /** The same bound on an update field: checked only when a string was sent. */
  predicate BoundedIfSent(s: Change<Option<string>>, lo: nat, hi: nat) {
    s.SetTo? ==> BoundedIfPresent(s.value, lo, hi)
  }

  function Min(a: int, b: int): int {
    if a <= b then a else b
  }

  /** `select(...).where(p)`: the rows satisfying `p`, in storage order. */
  function Where<T(!new)>(rows: seq<T>, p: T -> bool): (r: seq<T>)
    ensures |r| <= |rows|
    ensures forall x :: x in r <==> x in rows && p(x)
    decreases |rows|
  {
    if rows == [] then []
    else
      assert forall x :: x in rows <==> x == rows[0] || x in rows[1..];
      (if p(rows[0]) then [rows[0]] else []) + Where(rows[1..], p)
  }

  lemma {:induction false} WhereNone<T(!new)>(rows: seq<T>, p: T -> bool)
    requires forall i :: 0 <= i < |rows| ==> !p(rows[i])
    ensures Where(rows, p) == []
  {
    if rows != [] {
      WhereNone(rows[1..], p);
    }
  }

  /** When no two rows both satisfy `p` (a filter on a unique column), the
      filter yields at most one row. */
  lemma {:induction false} WhereAtMostOne<T(!new)>(rows: seq<T>, p: T -> bool)
    requires forall i, j :: 0 <= i < j < |rows| && p(rows[i]) ==> !p(rows[j])
    ensures |Where(rows, p)| <= 1
  {
    if rows != [] {
      if p(rows[0]) {
        WhereNone(rows[1..], p);
      } else {
        WhereAtMostOne(rows[1..], p);
      }
    }
  }

  /** The filter distributes over concatenation; with `WhereSingleton` this
      fixes the result completely: the satisfying rows, each as often as it
      occurs, in storage order. */
  lemma {:induction false} WhereConcat<T(!new)>(a: seq<T>, b: seq<T>, p: T -> bool)
    ensures Where(a + b, p) == Where(a, p) + Where(b, p)
    decreases |a|
  {
    if a != [] {
      assert (a + b)[0] == a[0] && (a + b)[1..] == a[1..] + b;
      WhereConcat(a[1..], b, p);
    } else {
      assert a + b == b;
    }
  }

  lemma WhereSingleton<T(!new)>(x: T, p: T -> bool)
    ensures Where([x], p) == if p(x) then [x] else []
  {
    assert [x][1..] == [];
  }

  /** The filter finds two or more rows exactly when two distinct rows
      satisfy `p`. */
  lemma {:induction false} WhereAtLeastTwo<T(!new)>(rows: seq<T>, p: T -> bool)
    ensures |Where(rows, p)| >= 2 <==> exists i, j :: 0 <= i < j < |rows| && p(rows[i]) && p(rows[j])
    decreases |rows|
  {
    if rows != [] {
      var rest := rows[1..];
      WhereAtLeastTwo(rest, p);
      var w := Where(rows, p);
      assert w == (if p(rows[0]) then [rows[0]] else []) + Where(rest, p);
      if exists i, j :: 0 <= i < j < |rows| && p(rows[i]) && p(rows[j]) {
        var i, j :| 0 <= i < j < |rows| && p(rows[i]) && p(rows[j]);
        assert rest[j - 1] == rows[j] && rows[j] in Where(rest, p);
        if i > 0 {
          assert rest[i - 1] == rows[i] && p(rest[i - 1]) && p(rest[j - 1]);
        }
      }
      if |w| >= 2 {
        if p(rows[0]) {
          var x := Where(rest, p)[0];
          assert x in Where(rest, p);
          var j :| 0 <= j < |rest| && rest[j] == x;
          assert rows[j + 1] == x && p(rows[0]) && p(rows[j + 1]);
        } else {
          var i, j :| 0 <= i < j < |rest| && p(rest[i]) && p(rest[j]);
          assert rows[i + 1] == rest[i] && rows[j + 1] == rest[j];
        }
      }
    }
  }

  /** The position of a row satisfying `p`, if there is one. Used for the
      primary-key lookups `select(T).where(T.id == id)`. */
  function IndexWhere<T>(rows: seq<T>, p: T -> bool): (r: Option<nat>)
    ensures r.Some? ==> r.value < |rows| && p(rows[r.value])
    ensures r.None? <==> forall i :: 0 <= i < |rows| ==> !p(rows[i])
    decreases |rows|
  {
    if rows == [] then None
    else if p(rows[0]) then Some(0)
    else
      match IndexWhere(rows[1..], p)
      case None => None
      case Some(k) => Some(k + 1)
  }

  /** `.offset(skip).limit(limit)` over `rows`. PostgreSQL rejects a negative
      OFFSET or LIMIT; otherwise the first `skip` rows are skipped and at most
      `limit` of the following rows are returned, in order. */
  function Page<T>(rows: seq<T>, skip: int, limit: int): (r: Result<seq<T>>)
    ensures r.Err? <==> skip < 0 || limit < 0
    ensures r.Err? ==> r.error == NegativePagination
    ensures r.Ok? ==> |r.value| <= limit
    ensures r.Ok? ==> |r.value| == if skip >= |rows| then 0 else Min(limit, |rows| - skip)
    ensures r.Ok? ==> forall k :: 0 <= k < |r.value| ==> r.value[k] == rows[skip + k]
  {
    if skip < 0 || limit < 0 then Err(NegativePagination)
    else if skip >= |rows| then Ok([])
    else Ok(rows[skip..][..Min(limit, |rows| - skip)])
  }

  /** `rows` without the row at position `i`, the others keeping their order. */
  function RemoveAt<T>(rows: seq<T>, i: nat): (r: seq<T>)
    requires i < |rows|
    ensures |r| == |rows| - 1
    ensures forall k :: 0 <= k < |r| ==> r[k] == rows[if k < i then k else k + 1]
  {
    rows[..i] + rows[i + 1..]
  }

  /** The primary keys of a table whose rows carry their key in `key`. */
  function Keys<T>(rows: seq<T>, key: T -> int): set<int> {
    set i | 0 <= i < |rows| :: key(rows[i])
  }

  /** Serial primary keys: positive, below the next value of the table's
      sequence, and increasing in storage order. */
  predicate KeysSerial<T>(rows: seq<T>, key: T -> int, nextId: int) {
    && nextId >= 1
    && (forall i :: 0 <= i < |rows| ==> 1 <= key(rows[i]) < nextId)
    && (forall i, j :: 0 <= i < j < |rows| ==> key(rows[i]) < key(rows[j]))
  }

  /** `select(T).where(T.id == id)`, as a position in the table. */
  function IndexOfKey<T>(rows: seq<T>, key: T -> int, id: int): (r: Option<nat>)
    ensures r.Some? ==> r.value < |rows| && key(rows[r.value]) == id
    ensures r.None? <==> id !in Keys(rows, key)
  {
    IndexWhere(rows, (x: T) => key(x) == id)
  }

  /** Replacing a row by one with the same key keeps the set of keys. */
  lemma ReplaceKeys<T>(rows: seq<T>, key: T -> int, i: nat, row: T)
    requires i < |rows| && key(row) == key(rows[i])
    ensures Keys(rows[i := row], key) == Keys(rows, key)
  {
    var vs := rows[i := row];
    forall id | id in Keys(rows, key) ensures id in Keys(vs, key) {
      var k :| 0 <= k < |rows| && key(rows[k]) == id;
      assert key(vs[k]) == id;
    }
    forall id | id in Keys(vs, key) ensures id in Keys(rows, key) {
      var k :| 0 <= k < |vs| && key(vs[k]) == id;
      assert key(rows[k]) == id;
    }
  }

  /** Appending a row adds exactly its key. */
  lemma AppendKeys<T>(rows: seq<T>, key: T -> int, row: T)
    ensures Keys(rows + [row], key) == Keys(rows, key) + {key(row)}
  {
    var vs := rows + [row];
    forall id | id in Keys(rows, key) ensures id in Keys(vs, key) {
      var k :| 0 <= k < |rows| && key(rows[k]) == id;
      assert vs[k] == rows[k];
    }
    assert vs[|rows|] == row;
  }

  /** Removing a row of a table with serial keys drops exactly its key. */
  lemma RemoveKeys<T>(rows: seq<T>, key: T -> int, nextId: int, i: nat)
    requires KeysSerial(rows, key, nextId) && i < |rows|
    ensures Keys(RemoveAt(rows, i), key) == Keys(rows, key) - {key(rows[i])}
  {
    var vs := RemoveAt(rows, i);
    forall id | id in Keys(rows, key) - {key(rows[i])} ensures id in Keys(vs, key) {
      var k :| 0 <= k < |rows| && key(rows[k]) == id;
      var m := if k < i then k else k - 1;
      assert vs[m] == rows[k];
    }
    forall id | id in Keys(vs, key) ensures id in Keys(rows, key) - {key(rows[i])} {
      var k :| 0 <= k < |vs| && key(vs[k]) == id;
      var m := if k < i then k else k + 1;
      assert vs[k] == rows[m];
    }
  }

  /** A page holds rows of `rows` only. */
  lemma PageWithin<T>(rows: seq<T>, skip: int, limit: int)
    ensures Page(rows, skip, limit).Ok? ==> forall x :: x in Page(rows, skip, limit).value ==> x in rows
  {
    var r := Page(rows, skip, limit);
    if r.Ok? {
      forall x | x in r.value ensures x in rows {
        var k :| 0 <= k < |r.value| && r.value[k] == x;
        assert rows[skip + k] == x;
      }
    }
  }

  /** Offset 0: the page holds every row, unless it is already `limit` long. */
  lemma FirstPageComplete<T>(rows: seq<T>, limit: int)
    requires limit >= 0
    ensures forall x :: x in rows ==> x in Page(rows, 0, limit).value || |Page(rows, 0, limit).value| == limit
  {
    var r := Page(rows, 0, limit).value;
    if |rows| <= limit {
      assert r == rows;
    }
  }

  /** Successive `setattr(obj, field, value)` calls, one per item, in order. */
  function ApplyAll<R, A>(obj: R, items: seq<A>, setattr: (R, A) -> R): R
    decreases |items|
  {
    if items == [] then obj else ApplyAll(setattr(obj, items[0]), items[1..], setattr)
  }

  /** Writing an item the body may or may not carry, then the rest. */
  lemma ApplyAllOptional<R, A>(obj: R, present: bool, a: A, rest: seq<A>, setattr: (R, A) -> R)
    ensures ApplyAll(obj, (if present then [a] else []) + rest, setattr)
         == ApplyAll(if present then setattr(obj, a) else obj, rest, setattr)
  {
    if present {
      assert ([a] + rest)[1..] == rest;
    } else {
      assert [] + rest == rest;
    }
  }

  /** The loop `for field, value in update_data.items(): setattr(obj, field, value)`
      of the three update handlers. */
  method SetAttrs<R, A>(obj: R, items: seq<A>, setattr: (R, A) -> R) returns (r: R)
    ensures r == ApplyAll(obj, items, setattr)
  {
    r := obj;
    var i := 0;
    while i < |items|
      invariant 0 <= i <= |items|
      invariant ApplyAll(r, items[i..], setattr) == ApplyAll(obj, items, setattr)
    {
      assert items[i..][1..] == items[i + 1..];
      r := setattr(r, items[i]);
      i := i + 1;
    }
    assert items[i..] == [];
  }
}
