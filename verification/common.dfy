/**
  Shared vocabulary of the model: optional values, request fields that may be
  left unset, the HTTP error taxonomy the handlers raise, and the shape of a
  handler's result over an abstract state.
 */
module Common {

  /** A point in time, as the database's `current_timestamp` supplies it. */
  type Timestamp = int

  /** A value that may be null (Python's `None`). */
  datatype Option<+T> = None | Some(value: T)

  /** A request or record field that may be absent altogether, as opposed to
      present with a null value. */
  datatype Field<+T> = Absent | Present(value: T)

  /** The `HTTPException` status codes the handlers raise; `InternalError`
      stands for an uncaught Python exception, which the server answers with 500. */
  datatype HttpError = NotFound | Forbidden | Conflict | UnprocessableEntity | InternalError

  function Code(e: HttpError): (c: int)
    ensures 400 <= c < 600
  {
    match e
    case NotFound => 404
    case Forbidden => 403
    case Conflict => 409
    case UnprocessableEntity => 422
    case InternalError => 500
  }

  /** What a handler answers: a status code with a payload, or an error. */
  datatype Outcome<+T> = Ok(status: int, value: T) | Fail(error: HttpError)

  /** A handler's answer together with the state it leaves behind. */
  datatype Step<+S, +T> = Step(out: Outcome<T>, state: S)

  /** The `published` value stored for a post: the schema default `True`
      when the request leaves it out. */
  function PublishedOrDefault(f: Field<bool>): bool
  {
    match f
    case Absent => true
    case Present(b) => b
  }

  /** A post body's `published` as the request carries it: left out, a
      boolean, or an explicit null (the schema types it `Optional[bool]`). */
  type BodyFlag = Field<Option<bool>>

  /** The value a bulk UPDATE writes to the NOT NULL `published` column:
      the schema default `True` when the body leaves it out, and null for an
      explicit null, which the database refuses. */
  function FlagColumn(f: BodyFlag): (r: Option<bool>)
    ensures r.None? <==> f == Present(None)
    ensures r == Some(false) <==> f == Present(Some(false))
  {
    match f
    case Absent => Some(true)
    case Present(v) => v
  }

  /** The `published` value an ORM INSERT stores: the unit of work leaves a
      `None` attribute out of the statement, so an explicit null gets the
      column's server default `TRUE`, as a left-out flag gets the schema's. */
  function InsertedFlag(f: BodyFlag): (r: bool)
    ensures !r <==> f == Present(Some(false))
    ensures FlagColumn(f).Some? ==> r == FlagColumn(f).value
  {
    match f
    case Present(Some(b)) => b
    case _ => true
  }

  /** `order` lists every key of a table exactly once: the order in which the
      database happens to return the rows of a query without ORDER BY. */
  predicate IsScan<K>(order: seq<K>, keys: set<K>)
  {
    && (forall i, j :: 0 <= i < j < |order| ==> order[i] != order[j])
    && (forall i :: 0 <= i < |order| ==> order[i] in keys)
    && (forall k :: k in keys ==> k in order)
  }

  /** A scan has exactly as many entries as the table has keys. */
  lemma {:induction false} ScanLength<K>(order: seq<K>, keys: set<K>)
    requires IsScan(order, keys)
    ensures |order| == |keys|
    decreases |order|
  {
    if |order| > 0 {
      var k := order[|order| - 1];
      var rest := order[..|order| - 1];
      assert IsScan(rest, keys - {k}) by {
        forall x | x in keys - {k}
          ensures x in rest
        {
          var i :| 0 <= i < |order| && order[i] == x;
          assert i != |order| - 1;
          assert rest[i] == x;
        }
      }
      ScanLength(rest, keys - {k});
    }
  }
}
