/**
 * Batch score adjustment: the POST handlers of `/api/scores/adjust` and of
 * its earlier copy `/api/save-sceretime`. A request names a list of people,
 * a reason, a signed amount, a type (`add` or `deduct`) and the operator.
 * After validation, one transaction walks the list: for each id it reads the
 * person's current score, writes `old + amount` and appends an audit record
 * to `score_changes`; the first unknown id rolls the whole batch back.
 *
 * The database is the pair `people` (id to current score) and `changes`
 * (the `score_changes` table, in insertion order).
 */
module ScoreAdjust {
  import opened Js

  datatype AdjustKind = Add | Deduct

  /** The parsed request body; `Malformed` when it is not valid JSON. */
  datatype AdjustBody =
    | Malformed
    | AdjustBody(ids: JsonValue, reason: JsonValue, adjustmentAmount: JsonValue,
                 adjustmentType: JsonValue, updatedBy: JsonValue)

  /** A request that passed validation. */
  datatype Adjustment = Adjustment(ids: seq<string>, reason: string, amount: int,
                                   kind: AdjustKind, updatedBy: string)

  datatype AdjustError =
    | InvalidJson
    | IdsEmpty
    | ReasonBlank
    | AmountInvalid
    | TypeInvalid
    | OperatorBlank
    | PersonNotFound(id: string)

  /** One row of `score_changes`. */
  datatype ScoreChange = ScoreChange(personId: string, reason: string, oldScore: int,
                                     newScore: int, amount: int, kind: AdjustKind,
                                     timestamp: int, updatedBy: string)

  /** The two tables the handlers touch. */
  datatype Db = Db(people: map<string, int>, changes: seq<ScoreChange>)

  function ErrorStatus(e: AdjustError): int {
    match e
    case PersonNotFound(_) => 404
    case _ => 400
  }

  /** The HTTP status of a handler's outcome; success carries `updatedCount`. */
  function Status(r: Result<nat, AdjustError>): int {
    match r
    case Ok(_) => 200
    case Err(e) => ErrorStatus(e)
  }

  // ---------------------------------------------------------------------
  // Validation
  // ---------------------------------------------------------------------

  /** `!ids || !Array.isArray(ids) || ids.length === 0` is false. */
  predicate IdsPresent(v: JsonValue) {
    Truthy(v) && v.Arr? && |v.items| > 0
  }

  /** `typeof v !== 'number' || isNaN(v)` is false. */
  predicate IsNumber(v: JsonValue) {
    v.Num?
  }

  /** `adjustmentType` compared strictly with `'add'` and `'deduct'`. */
  function KindOf(v: JsonValue): (r: Option<AdjustKind>)
    ensures r == Some(Add) <==> v == Str("add")
    ensures r == Some(Deduct) <==> v == Str("deduct")
    ensures r.None? <==> v != Str("add") && v != Str("deduct")
  {
    if StrictEquals(v, Str("add")) then Some(Add)
    else if StrictEquals(v, Str("deduct")) then Some(Deduct)
    else None
  }

  /**
   * The guard sequence of both handlers, checked in this order: ids, reason,
   * amount, type, operator. The first failing check decides the error.
   */
  function Validate(b: AdjustBody): (r: Result<Adjustment, AdjustError>)
    ensures r.Ok? <==>
      b.AdjustBody? && IdsPresent(b.ids) && NonBlankString(b.reason) &&
      IsNumber(b.adjustmentAmount) && KindOf(b.adjustmentType).Some? &&
      NonBlankString(b.updatedBy)
    ensures r.Ok? ==>
      r.value.ids == b.ids.items && r.value.reason == b.reason.s &&
      r.value.amount == b.adjustmentAmount.n &&
      r.value.kind == KindOf(b.adjustmentType).value &&
      r.value.updatedBy == b.updatedBy.s && r.value.ids != []
    ensures r.Err? ==> ErrorStatus(r.error) == 400
  {
    if b.Malformed? then Err(InvalidJson)
    else if !IdsPresent(b.ids) then Err(IdsEmpty)
    else if !NonBlankString(b.reason) then Err(ReasonBlank)
    else if !IsNumber(b.adjustmentAmount) then Err(AmountInvalid)
    else if KindOf(b.adjustmentType).None? then Err(TypeInvalid)
    else if !NonBlankString(b.updatedBy) then Err(OperatorBlank)
    else Ok(Adjustment(b.ids.items, b.reason.s, b.adjustmentAmount.n,
                       KindOf(b.adjustmentType).value, b.updatedBy.s))
  }

  /**
   * The checks run in the order ids, reason, amount, type, operator, and
   * the first failing one decides the error.
   */
  lemma ValidateFirstFailure(b: AdjustBody)
    ensures Validate(b) == Err(InvalidJson) <==> b.Malformed?
    ensures Validate(b) == Err(IdsEmpty) <==> b.AdjustBody? && !IdsPresent(b.ids)
    ensures Validate(b) == Err(ReasonBlank) <==>
      b.AdjustBody? && IdsPresent(b.ids) && !NonBlankString(b.reason)
    ensures Validate(b) == Err(AmountInvalid) <==>
      b.AdjustBody? && IdsPresent(b.ids) && NonBlankString(b.reason) &&
      !IsNumber(b.adjustmentAmount)
    ensures Validate(b) == Err(TypeInvalid) <==>
      b.AdjustBody? && IdsPresent(b.ids) && NonBlankString(b.reason) &&
      IsNumber(b.adjustmentAmount) && KindOf(b.adjustmentType).None?
    ensures Validate(b) == Err(OperatorBlank) <==>
      b.AdjustBody? && IdsPresent(b.ids) && NonBlankString(b.reason) &&
      IsNumber(b.adjustmentAmount) && KindOf(b.adjustmentType).Some? &&
      !NonBlankString(b.updatedBy)
  {
  }

  /** The handlers only log a warning when the amount's sign disagrees with the type. */
  predicate SignMismatch(adj: Adjustment) {
    (adj.kind == Add && adj.amount < 0) || (adj.kind == Deduct && adj.amount > 0)
  }

  /**
   * A sign mismatch does not reject: a body asking to `add` a negative
   * amount, or to `deduct` a positive one, validates like any other, and
   * the amount is kept exactly as sent.
   */
  lemma SignMismatchOnlyWarns(b: AdjustBody)
    requires b.AdjustBody? && IdsPresent(b.ids) && NonBlankString(b.reason) && NonBlankString(b.updatedBy)
    requires b.adjustmentAmount.Num?
    requires (b.adjustmentType == Str("add") && b.adjustmentAmount.n < 0) ||
             (b.adjustmentType == Str("deduct") && b.adjustmentAmount.n > 0)
    ensures Validate(b).Ok? && Validate(b).value.amount == b.adjustmentAmount.n
    ensures SignMismatch(Validate(b).value)
  {
    var r := Validate(b);
    assert r.Ok?;
    assert r.value.kind == if b.adjustmentType == Str("add") then Add else Deduct;
  }

  /** A blank reason (empty or white space only) is rejected with 400. */
  lemma BlankReasonRejected(b: AdjustBody)
    requires b.AdjustBody? && IdsPresent(b.ids)
    requires b.reason.Str? && AllSpace(b.reason.s)
    ensures Validate(b) == Err(ReasonBlank) && ErrorStatus(Validate(b).error) == 400
  {
    TrimEmptyIff(b.reason.s);
  }

  // ---------------------------------------------------------------------
  // The transactional loop, as a function of the tables before it
  // ---------------------------------------------------------------------

  /** The audit row written for one id whose score was `oldScore`. */
  function Record(adj: Adjustment, id: string, oldScore: int, now: int): ScoreChange {
    ScoreChange(id, adj.reason, oldScore, oldScore + adj.amount, adj.amount, adj.kind,
                now, adj.updatedBy)
  }

  /** What the loop over `ids` does to the scores, and the rows it appends. */
  datatype BatchOutcome = Missing(id: string) | Applied(scores: map<string, int>, log: seq<ScoreChange>)

  function Prepend(log: seq<ScoreChange>, o: BatchOutcome): BatchOutcome {
    match o
    case Missing(id) => Missing(id)
    case Applied(s, l) => Applied(s, log + l)
  }

  /**
   * Walks `ids` in order: the first id without a row stops the walk;
   * otherwise the current score is re-read, so an id listed twice is
   * adjusted twice.
   */
  function Batch(scores: map<string, int>, ids: seq<string>, adj: Adjustment, now: int): BatchOutcome
    decreases |ids|
  {
    if ids == [] then Applied(scores, [])
    else if ids[0] !in scores then Missing(ids[0])
    else
      var current := scores[ids[0]];
      Prepend([Record(adj, ids[0], current, now)],
              Batch(scores[ids[0] := current + adj.amount], ids[1..], adj, now))
  }

  /**
   * The walk stops exactly when some id has no row, and the id it reports
   * is the first such one in the list.
   */
  lemma {:induction false} BatchMissingIff(scores: map<string, int>, ids: seq<string>, adj: Adjustment, now: int)
    ensures Batch(scores, ids, adj, now).Missing? <==> exists k :: 0 <= k < |ids| && ids[k] !in scores
    ensures Batch(scores, ids, adj, now).Missing? ==>
      var id := Batch(scores, ids, adj, now).id;
      id !in scores &&
      exists k :: 0 <= k < |ids| && ids[k] == id && forall j :: 0 <= j < k ==> ids[j] in scores
  {
    if ids != [] && ids[0] in scores {
      var s' := scores[ids[0] := scores[ids[0]] + adj.amount];
      assert s'.Keys == scores.Keys;
      BatchMissingIff(s', ids[1..], adj, now);
      var o := Batch(s', ids[1..], adj, now);
      if o.Missing? {
        var k :| 0 <= k < |ids[1..]| && ids[1..][k] == o.id && forall j :: 0 <= j < k ==> ids[1..][j] in s';
        assert ids[k + 1] == o.id;
        forall j | 0 <= j < k + 1 ensures ids[j] in scores {
          if j > 0 { assert ids[j] == ids[1..][j - 1]; }
        }
      } else {
        forall k | 0 <= k < |ids| ensures ids[k] in scores {
          if k > 0 { assert ids[k] == ids[1..][k - 1]; }
        }
      }
    }
  }

  /** Splitting the first id off the list, for counting occurrences. */
  lemma ConsCount(ids: seq<string>, k: string)
    requires ids != []
    ensures multiset(ids)[k] == multiset(ids[1..])[k] + (if ids[0] == k then 1 else 0)
  {
    assert ids == [ids[0]] + ids[1..];
  }

  /** Splitting the first id off a prefix of the list, for counting occurrences. */
  lemma PrefixCount(ids: seq<string>, i: nat, k: string)
    requires 0 < i <= |ids|
    ensures multiset(ids[..i])[k] == multiset(ids[1..][..i - 1])[k] + (if ids[0] == k then 1 else 0)
  {
    assert ids[..i] == [ids[0]] + ids[1..][..i - 1];
  }

  lemma MulDistributes(a: int, c: int, e: int)
    ensures a * (c + e) == a * c + a * e
  {
  }

  /** A complete walk neither adds nor removes people. */
  lemma {:induction false} BatchKeys(scores: map<string, int>, ids: seq<string>, adj: Adjustment, now: int)
    requires Batch(scores, ids, adj, now).Applied?
    ensures Batch(scores, ids, adj, now).scores.Keys == scores.Keys
  {
    if ids != [] {
      var id := ids[0];
      var s' := scores[id := scores[id] + adj.amount];
      assert s'.Keys == scores.Keys;
      BatchKeys(s', ids[1..], adj, now);
    }
  }

  /** After a complete walk, person `k`'s score has moved by `amount` once per occurrence of `k`. */
  lemma {:induction false} BatchScoreAt(scores: map<string, int>, ids: seq<string>, adj: Adjustment, now: int, k: string)
    requires Batch(scores, ids, adj, now).Applied?
    requires k in scores
    ensures k in Batch(scores, ids, adj, now).scores
    ensures Batch(scores, ids, adj, now).scores[k] == scores[k] + adj.amount * multiset(ids)[k]
  {
    if ids != [] {
      var id := ids[0];
      var s' := scores[id := scores[id] + adj.amount];
      BatchScoreAt(s', ids[1..], adj, now, k);
      ConsCount(ids, k);
      var c := multiset(ids[1..])[k];
      MulDistributes(adj.amount, c, if k == id then 1 else 0);
    }
  }

  /**
   * After a complete walk every listed person's score has moved by `amount`
   * once per occurrence of their id, and nobody else's score has moved.
   */
  lemma BatchScores(scores: map<string, int>, ids: seq<string>, adj: Adjustment, now: int)
    requires Batch(scores, ids, adj, now).Applied?
    ensures var s := Batch(scores, ids, adj, now).scores;
      s.Keys == scores.Keys &&
      (forall k :: k in scores ==> s[k] == scores[k] + adj.amount * multiset(ids)[k]) &&
      (forall k :: k in scores && k !in ids ==> s[k] == scores[k])
  {
    BatchKeys(scores, ids, adj, now);
    forall k | k in scores
      ensures Batch(scores, ids, adj, now).scores[k] == scores[k] + adj.amount * multiset(ids)[k]
    {
      BatchScoreAt(scores, ids, adj, now, k);
    }
  }

  /**
   * Row `i` of a complete walk's log is the record for `ids[i]`, made from
   * the score as re-read at that point: the original score moved by the
   * earlier occurrences of the same id.
   */
  lemma {:induction false} BatchLogAt(scores: map<string, int>, ids: seq<string>, adj: Adjustment, now: int, i: nat)
    requires Batch(scores, ids, adj, now).Applied?
    requires i < |ids|
    ensures ids[i] in scores
    ensures var log := Batch(scores, ids, adj, now).log;
      |log| == |ids| &&
      log[i] == Record(adj, ids[i], scores[ids[i]] + adj.amount * multiset(ids[..i])[ids[i]], now)
  {
    BatchLogLength(scores, ids, adj, now);
    var id := ids[0];
    var s' := scores[id := scores[id] + adj.amount];
    var tail := Batch(s', ids[1..], adj, now);
    assert Batch(scores, ids, adj, now).log == [Record(adj, id, scores[id], now)] + tail.log;
    if i == 0 {
      assert ids[..0] == [];
    } else {
      BatchLogAt(s', ids[1..], adj, now, i - 1);
      var k := ids[i];
      assert k == ids[1..][i - 1];
      PrefixCount(ids, i, k);
      var c := multiset(ids[1..][..i - 1])[k];
      var e := if k == id then 1 else 0;
      MulDistributes(adj.amount, c, e);
      assert s'[k] == scores[k] + adj.amount * e;
      assert tail.log[i - 1] == Record(adj, k, scores[k] + adj.amount * multiset(ids[..i])[k], now);
    }
  }

  /** A complete walk writes one audit row per listed id. */
  lemma {:induction false} BatchLogLength(scores: map<string, int>, ids: seq<string>, adj: Adjustment, now: int)
    requires Batch(scores, ids, adj, now).Applied?
    ensures |Batch(scores, ids, adj, now).log| == |ids|
  {
    if ids != [] {
      BatchLogLength(scores[ids[0] := scores[ids[0]] + adj.amount], ids[1..], adj, now);
    }
  }

  /**
   * A complete walk appends one audit row per listed id, in list order: the
   * score read, that score plus `amount`, the request's reason, type and
   * operator, and one timestamp for the whole batch.
   */
  lemma BatchLog(scores: map<string, int>, ids: seq<string>, adj: Adjustment, now: int)
    requires Batch(scores, ids, adj, now).Applied?
    ensures var log := Batch(scores, ids, adj, now).log;
      |log| == |ids| &&
      forall i :: 0 <= i < |ids| ==>
        ids[i] in scores &&
        log[i].personId == ids[i] &&
        log[i].oldScore == scores[ids[i]] + adj.amount * multiset(ids[..i])[ids[i]] &&
        log[i].newScore == log[i].oldScore + adj.amount &&
        log[i].amount == adj.amount && log[i].kind == adj.kind &&
        log[i].reason == adj.reason && log[i].updatedBy == adj.updatedBy &&
        log[i].timestamp == now
  {
    if ids != [] {
      BatchLogAt(scores, ids, adj, now, 0);
    }
    forall i | 0 <= i < |ids|
      ensures ids[i] in scores
      ensures Batch(scores, ids, adj, now).log[i] ==
        Record(adj, ids[i], scores[ids[i]] + adj.amount * multiset(ids[..i])[ids[i]], now)
    {
      BatchLogAt(scores, ids, adj, now, i);
    }
  }

  /** One step of the walk, taken at position `i` of the list. */
  lemma BatchStep(scores: map<string, int>, ids: seq<string>, i: nat, adj: Adjustment, now: int)
    requires i < |ids|
    ensures Batch(scores, ids[i..], adj, now) ==
      if ids[i] !in scores then Missing(ids[i])
      else Prepend([Record(adj, ids[i], scores[ids[i]], now)],
                   Batch(scores[ids[i] := scores[ids[i]] + adj.amount], ids[i + 1..], adj, now))
  {
    assert ids[i..][0] == ids[i] && ids[i..][1..] == ids[i + 1..];
  }

  /** Rows prepended one at a time accumulate in order. */
  lemma PrependTwice(log: seq<ScoreChange>, record: ScoreChange, o: BatchOutcome)
    ensures Prepend(log, Prepend([record], o)) == Prepend(log + [record], o)
  {
    if o.Applied? {
      assert log + ([record] + o.log) == (log + [record]) + o.log;
    }
  }

  // ---------------------------------------------------------------------
  // The whole handler, as a function of the database before the request
  // ---------------------------------------------------------------------

  /** The response of either handler and the database after it. */
  function Post(db: Db, body: AdjustBody, now: int): (Result<nat, AdjustError>, Db) {
    var v := Validate(body);
    if v.Err? then (Err(v.error), db)
    else Transaction(db, v.value, now)
  }

  /** BEGIN, the loop, then COMMIT, or ROLLBACK at the first unknown id. */
  function Transaction(db: Db, adj: Adjustment, now: int): (Result<nat, AdjustError>, Db) {
    var o := Batch(db.people, adj.ids, adj, now);
    if o.Missing? then (Err(PersonNotFound(o.id)), db)
    else (Ok(|adj.ids|), Db(o.scores, db.changes + o.log))
  }

  /** Every audit row names a person on file and records `new = old + amount`. */
  ghost predicate ValidDb(db: Db) {
    forall c :: c in db.changes ==> c.personId in db.people && c.newScore == c.oldScore + c.amount
  }

  /**
   * All or nothing: a rejected request and a rolled-back batch leave both
   * tables exactly as they were; validation failures answer 400 before the
   * transaction starts.
   */
  lemma PostAtomic(db: Db, body: AdjustBody, now: int)
    ensures Post(db, body, now).0.Err? ==> Post(db, body, now).1 == db
    ensures Post(db, body, now).0.Err? <==> Status(Post(db, body, now).0) != 200
    ensures Validate(body).Err? ==> Status(Post(db, body, now).0) == 400
  {
    var v := Validate(body);
    if v.Ok? {
      var o := Batch(db.people, v.value.ids, v.value, now);
      assert Post(db, body, now) == Transaction(db, v.value, now);
      if o.Missing? {
        assert Post(db, body, now) == (Err(PersonNotFound(o.id)), db);
      } else {
        assert Post(db, body, now).0 == Ok(|v.value.ids|);
      }
    }
  }

  /**
   * A list naming someone without a row answers 404 with the first such id;
   * otherwise the answer is 200 with `updatedCount` equal to the length of
   * the list.
   */
  lemma TransactionLookup(db: Db, adj: Adjustment, now: int)
    ensures var r := Transaction(db, adj, now).0;
      ((exists k :: 0 <= k < |adj.ids| && adj.ids[k] !in db.people) ==>
        r.Err? && r.error.PersonNotFound? && r.error.id in adj.ids && r.error.id !in db.people &&
        Status(r) == 404) &&
      ((forall k :: 0 <= k < |adj.ids| ==> adj.ids[k] in db.people) ==>
        r == Ok(|adj.ids|) && Status(r) == 200)
  {
    BatchMissingIff(db.people, adj.ids, adj, now);
    var o := Batch(db.people, adj.ids, adj, now);
    if o.Missing? {
      var k :| 0 <= k < |adj.ids| && adj.ids[k] == o.id && forall j :: 0 <= j < k ==> adj.ids[j] in db.people;
    }
  }

  /**
   * A committed batch moves each listed score by `amount` per occurrence of
   * its id, leaves everyone else's score alone and keeps the set of people.
   */
  lemma TransactionScores(db: Db, adj: Adjustment, now: int)
    requires Transaction(db, adj, now).0.Ok?
    ensures var people := Transaction(db, adj, now).1.people;
      people.Keys == db.people.Keys &&
      (forall k :: k in db.people ==> people[k] == db.people[k] + adj.amount * multiset(adj.ids)[k]) &&
      (forall k :: k in db.people && k !in adj.ids ==> people[k] == db.people[k])
  {
    BatchScores(db.people, adj.ids, adj, now);
  }

  /**
   * A committed batch keeps the existing audit rows and appends exactly one
   * per listed id, in list order.
   */
  lemma TransactionHistory(db: Db, adj: Adjustment, now: int)
    requires Transaction(db, adj, now).0.Ok?
    ensures var changes := Transaction(db, adj, now).1.changes;
      |changes| == |db.changes| + |adj.ids| && changes[..|db.changes|] == db.changes &&
      forall i :: 0 <= i < |adj.ids| ==>
        changes[|db.changes| + i].personId == adj.ids[i] &&
        changes[|db.changes| + i].newScore == changes[|db.changes| + i].oldScore + adj.amount &&
        changes[|db.changes| + i].reason == adj.reason &&
        changes[|db.changes| + i].updatedBy == adj.updatedBy &&
        changes[|db.changes| + i].timestamp == now
  {
    BatchLog(db.people, adj.ids, adj, now);
    var log := Batch(db.people, adj.ids, adj, now).log;
    assert (db.changes + log)[..|db.changes|] == db.changes;
    forall i | 0 <= i < |adj.ids| ensures (db.changes + log)[|db.changes| + i] == log[i] { }
  }

  /** Every row a complete walk writes names a person on file and records `new = old + amount`. */
  lemma {:induction false} BatchLogConsistent(scores: map<string, int>, ids: seq<string>, adj: Adjustment, now: int)
    requires Batch(scores, ids, adj, now).Applied?
    ensures forall c :: c in Batch(scores, ids, adj, now).log ==>
      c.personId in scores && c.newScore == c.oldScore + c.amount
  {
    if ids != [] {
      var id := ids[0];
      var s' := scores[id := scores[id] + adj.amount];
      assert s'.Keys == scores.Keys;
      BatchLogConsistent(s', ids[1..], adj, now);
    }
  }

  /** A transaction keeps every audit row consistent with the people table. */
  lemma TransactionPreservesValid(db: Db, adj: Adjustment, now: int)
    requires ValidDb(db)
    ensures ValidDb(Transaction(db, adj, now).1)
  {
    var o := Batch(db.people, adj.ids, adj, now);
    if o.Applied? {
      BatchScores(db.people, adj.ids, adj, now);
      BatchLogConsistent(db.people, adj.ids, adj, now);
      assert Transaction(db, adj, now).1 == Db(o.scores, db.changes + o.log);
      assert forall c :: c in db.changes + o.log ==> c in db.changes || c in o.log;
    }
  }

  /** Each handler keeps every audit row consistent with the people table. */
  lemma PostPreservesValid(db: Db, body: AdjustBody, now: int)
    requires ValidDb(db)
    ensures ValidDb(Post(db, body, now).1)
  {
    var v := Validate(body);
    if v.Ok? {
      TransactionPreservesValid(db, v.value, now);
    }
  }

  // ---------------------------------------------------------------------
  // The database as the handlers mutate it
  // ---------------------------------------------------------------------

  class ScoreDb {
    var people: map<string, int>
    var changes: seq<ScoreChange>

    function State(): Db
      reads this
    {
      Db(people, changes)
    }

    ghost predicate Valid()
      reads this
    {
      ValidDb(State())
    }

    /** A database with the given tables, whose audit rows agree with the scores. */
    constructor (people: map<string, int>, changes: seq<ScoreChange>)
      requires ValidDb(Db(people, changes))
      ensures this.people == people && this.changes == changes && Valid()
    {
      this.people := people;
      this.changes := changes;
    }

    /**
     * `UPDATE people SET current_score = $1 WHERE id = $2`, with the number
     * of rows it affected.
     */
    method UpdateScore(id: string, score: int) returns (rowCount: nat)
      modifies this
      ensures rowCount == if id in old(people) then 1 else 0
      ensures people == if id in old(people) then old(people)[id := score] else old(people)
      ensures changes == old(changes)
    {
      if id in people {
        people := people[id := score];
        rowCount := 1;
      } else {
        rowCount := 0;
      }
    }

    /**
     * The loop between BEGIN and COMMIT. The row found by the lookup is the
     * one the update writes, so the update always reports one row and the
     * adjust handler's rollback on a zero row count can never fire.
     */
    method RunBatch(adj: Adjustment, now: int) returns (r: Result<nat, AdjustError>)
      modifies this
      ensures match Batch(old(people), adj.ids, adj, now)
        case Missing(id) => r == Err(PersonNotFound(id)) && people == old(people) && changes == old(changes)
        case Applied(s, log) => r == Ok(|adj.ids|) && people == s && changes == old(changes) + log
    {
      var savedPeople, savedChanges := people, changes;   // BEGIN
      ghost var log: seq<ScoreChange> := [];
      var i := 0;
      while i < |adj.ids|
        invariant 0 <= i <= |adj.ids|
        invariant changes == savedChanges + log
        invariant Batch(savedPeople, adj.ids, adj, now) == Prepend(log, Batch(people, adj.ids[i..], adj, now))
      {
        var id := adj.ids[i];
        BatchStep(people, adj.ids, i, adj, now);
        if id !in people {   // SELECT ... FOR UPDATE found no row
          people, changes := savedPeople, savedChanges;   // ROLLBACK
          return Err(PersonNotFound(id));
        }
        var oldScore := people[id];
        var newScore := oldScore + adj.amount;
        var rowCount := UpdateScore(id, newScore);
        assert rowCount == 1;
        var record := ScoreChange(id, adj.reason, oldScore, newScore, adj.amount, adj.kind, now, adj.updatedBy);
        assert record == Record(adj, id, oldScore, now);
        changes := changes + [record];
        PrependTwice(log, record, Batch(people, adj.ids[i + 1..], adj, now));
        log := log + [record];
        i := i + 1;
      }
      // COMMIT
      assert adj.ids[i..] == [];
      r := Ok(|adj.ids|);
    }

    /**
     * POST /api/scores/adjust: the response it builds and the tables after
     * it. Acquiring and releasing the pool client is not modelled.
     */
    method Adjust(body: AdjustBody, now: int) returns (r: Result<nat, AdjustError>)
      modifies this
      ensures (r, State()) == Post(old(State()), body, now)
      ensures old(Valid()) ==> Valid()
    {
      if Valid() {
        PostPreservesValid(State(), body, now);
      }
      var v := Validate(body);
      if v.Err? {
        return Err(v.error);
      }
      r := RunBatch(v.value, now);
    }

    /** POST /api/save-sceretime: the same validation and loop, without the row-count check. */
    method SaveSceretime(body: AdjustBody, now: int) returns (r: Result<nat, AdjustError>)
      modifies this
      ensures (r, State()) == Post(old(State()), body, now)
      ensures old(Valid()) ==> Valid()
    {
      if Valid() {
        PostPreservesValid(State(), body, now);
      }
      var v := Validate(body);
      if v.Err? {
        return Err(v.error);
      }
      r := RunBatch(v.value, now);
    }
  }
}
