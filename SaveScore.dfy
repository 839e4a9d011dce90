/**
 * POST /api/save-score: stores one finished snake game. The handler checks
 * that the connection pool exists, parses the body, validates
 * `player_name` and `score`, then inserts the pair and answers with the
 * row the insert returned.
 */
module SaveScore {
  import opened Js

  /** The request body; `Malformed` is a body that is not JSON. */
  datatype Payload = Malformed | Payload(playerName: JsonValue, score: JsonValue)

  datatype SaveError =
    | PoolUnavailable   // no DATABASE_URL, so no pool
    | InvalidJson
    | NameNotString
    | NameTooLong
    | ScoreRequired
    | ScoreInvalid
    | NoRowReturned     // the insert returned no row
    | DbFailure         // the insert threw

  function ErrorStatus(e: SaveError): int {
    match e
    case PoolUnavailable => 503
    case NoRowReturned => 500
    case DbFailure => 500
    case _ => 400
  }

  /** The column limit of `player_name` (VARCHAR(255)). */
  const MaxNameLength := 255

  /** The two query parameters: the name, or SQL NULL, and the score. */
  datatype InsertValues = InsertValues(playerName: Option<string>, score: int)

  /** A row of `player_score` as the insert returns it. */
  datatype ScoreRecord = ScoreRecord(playerName: Option<string>, playerScore: int)

  /** What the database does with the insert. */
  datatype InsertOutcome = Returned(rows: seq<ScoreRecord>) | Failed

  /** `player_name` is absent, null, or a string of at most 255 characters. */
  predicate NameAcceptable(v: JsonValue) {
    v.Undefined? || v.Null? || (v.Str? && |v.s| <= MaxNameLength)
  }

  /**
   * The body checks in source order: JSON, the name's type, its length, the
   * presence of a score, then that the score is a number other than NaN.
   */
  function Validate(p: Payload): (r: Result<InsertValues, SaveError>)
    ensures r.Ok? <==> p.Payload? && NameAcceptable(p.playerName) && p.score.Num?
    ensures r.Ok? ==>
      (r.value.playerName.Some? <==> p.playerName.Str?) &&
      (p.playerName.Str? ==> r.value.playerName.value == p.playerName.s) &&
      r.value.score == p.score.n
    ensures r.Err? ==> ErrorStatus(r.error) == 400
  {
    if p.Malformed? then Err(InvalidJson)
    else if !p.playerName.Undefined? && !p.playerName.Null? && !p.playerName.Str? then Err(NameNotString)
    else if p.playerName.Str? && |p.playerName.s| > MaxNameLength then Err(NameTooLong)
    else if p.score.Undefined? || p.score.Null? then Err(ScoreRequired)
    else if !p.score.Num? then Err(ScoreInvalid)
    else Ok(InsertValues(if p.playerName.Str? then Some(p.playerName.s) else None, p.score.n))
  }

  /**
   * The whole handler. `poolReady` says whether the pool was created at
   * start-up; `insert` stands for the database executing the INSERT.
   */
  function Save(poolReady: bool, p: Payload, insert: InsertValues -> InsertOutcome): Result<ScoreRecord, SaveError> {
    if !poolReady then Err(PoolUnavailable)
    else
      match Validate(p)
      case Err(e) => Err(e)
      case Ok(v) =>
        match insert(v)
        case Failed => Err(DbFailure)
        case Returned(rows) => if |rows| > 0 then Ok(rows[0]) else Err(NoRowReturned)
  }

  /** 201 Created with the inserted row, or the error's status. */
  function Status(r: Result<ScoreRecord, SaveError>): int {
    match r
    case Ok(_) => 201
    case Err(e) => ErrorStatus(e)
  }

  /** Without a pool the handler answers 503 whatever the body and the database. */
  lemma PoolCheckedFirst(p: Payload, insert: InsertValues -> InsertOutcome)
    ensures Save(false, p, insert) == Err(PoolUnavailable)
    ensures Status(Save(false, p, insert)) == 503
  {
  }

  /**
   * The checks run in order and the first failing one decides the error:
   * exactly one error per kind of bad body.
   */
  lemma ValidateFirstFailure(p: Payload)
    ensures Validate(p) == Err(InvalidJson) <==> p.Malformed?
    ensures Validate(p) == Err(NameNotString) <==>
      p.Payload? && !p.playerName.Undefined? && !p.playerName.Null? && !p.playerName.Str?
    ensures Validate(p) == Err(NameTooLong) <==>
      p.Payload? && p.playerName.Str? && |p.playerName.s| > MaxNameLength
    ensures Validate(p) == Err(ScoreRequired) <==>
      p.Payload? && NameAcceptable(p.playerName) && (p.score.Undefined? || p.score.Null?)
    ensures Validate(p) == Err(ScoreInvalid) <==>
      p.Payload? && NameAcceptable(p.playerName) && !p.score.Undefined? && !p.score.Null? && !p.score.Num?
  {
  }

  /**
   * A rejected body never reaches the database: the answer is the same 400
   * whatever the insert would have done.
   */
  lemma InvalidBodyNeverInserted(p: Payload, insert1: InsertValues -> InsertOutcome, insert2: InsertValues -> InsertOutcome)
    requires Validate(p).Err?
    ensures Save(true, p, insert1) == Save(true, p, insert2) == Err(Validate(p).error)
    ensures Status(Save(true, p, insert1)) == 400
  {
  }

  /**
   * The handler succeeds exactly when the pool exists, the body is valid and
   * the insert returns a row; the insert then received the name, or NULL
   * for an absent or null name, and the score as sent, and the answer is
   * 201 with the first returned row.
   */
  lemma SaveSucceedsIff(poolReady: bool, p: Payload, insert: InsertValues -> InsertOutcome)
    ensures var r := Save(poolReady, p, insert);
      r.Ok? <==>
        poolReady && p.Payload? && NameAcceptable(p.playerName) && p.score.Num? &&
        var v := InsertValues(if p.playerName.Str? then Some(p.playerName.s) else None, p.score.n);
        insert(v).Returned? && |insert(v).rows| > 0
    ensures var r := Save(poolReady, p, insert);
      r.Ok? ==>
        var v := InsertValues(if p.playerName.Str? then Some(p.playerName.s) else None, p.score.n);
        r.value == insert(v).rows[0] && Status(r) == 201
  {
    var r := Validate(p);
    if poolReady && r.Ok? {
      assert r.value == InsertValues(if p.playerName.Str? then Some(p.playerName.s) else None, p.score.n);
    }
  }

  /** An insert that reports no row, or throws, is answered with 500. */
  lemma InsertFailureIs500(p: Payload, insert: InsertValues -> InsertOutcome)
    requires Validate(p).Ok?
    requires insert(Validate(p).value) == Returned([]) || insert(Validate(p).value) == Failed
    ensures Save(true, p, insert).Err? && Status(Save(true, p, insert)) == 500
  {
  }
}
