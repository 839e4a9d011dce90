# Community and organisation management system: verified model of the request logic

This project models the sequential logic of a small Next.js site for managing
club members and their points. Five pieces are covered:

- **Batch score adjustment** (`POST /api/scores/adjust` and its earlier copy
  `POST /api/save-sceretime`), module `ScoreAdjust`.
  - A request names a list of member ids, a reason, a signed amount, a type
    (`add` or `deduct`) and the operator.
  - After validation, one database transaction walks the list. For each id it
    reads the member's current score, writes `old + amount` and appends an
    audit row to `score_changes`.
  - The first unknown id rolls the whole batch back.
  - The database is a class `ScoreDb` that holds the `people` table (a map from
    id to score) and the `score_changes` table (a sequence).
  - The loop is the method `RunBatch`. It is proved against the recursive
    specification `Batch`, and the properties of `Batch` are lemmas.
- **The snake game** of the dashboard page, module `Snake`.
  - `drawFrame` and `onKey` are the methods `SnakeGame.DrawFrame` and
    `SnakeGame.OnKey`. They change the snake, the food and the direction in
    place.
  - The methods are proved against the frame function `Tick` and the steering
    function `Steer`. The game's invariant is proved for both: the body stays
    on the 20 × 20 board, no cell repeats, and the direction is a unit vector.
  - The save button's request is linked to the save-score validator.
- **Saving a score** (`POST /api/save-score`), module `SaveScore`: the guard
  sequence and the building of the insert values.
- **Login** (`POST /api/auth/login`), module `Login`: the credential check,
  the user lookup, the strict password comparison and the removal of the
  password from the response.
- **Article upload** (`POST /api/articles/upload`), module `ArticleUpload`:
  the required fields, `parseInt` of the author id, the rule that a file is a
  `.docx` by MIME type or by extension, and the filename fallback.

Module `Js` holds the JavaScript semantics that these handlers rely on:
- parsed JSON values;
- truthiness and `===`;
- `trim`, `toLowerCase` and `split('.').pop()`;
- `parseInt(s, 10)`, with a round-trip lemma against decimal printing.

The handlers become functions from the request and the database state to a
result, represented with `Result`/`Option` datatypes. Each HTTP status is a
function of the error.

The database, the clock and the random number generator become parameters:
- the time of the batch is `now`;
- the random food cell is `newFood`;
- the save-score insert is a function `insert`;
- the `users` table is a sequence of rows;
- the converted HTML of an article is `html`.

Two handlers share one model:
- The adjust and save-sceretime handlers run the same checks in the same
  order (`app/api/save-sceretime/route.ts:45-67` against
  `app/api/scores/adjust/route.ts:39-56`).
- They also run the same loop, so both methods use `Validate` and `RunBatch`.
- The adjust handler also rolls back with 500 when the update reports zero
  rows (`app/api/scores/adjust/route.ts:92-98`). In the model this cannot
  happen: the update is applied to the row the lookup has just found, and
  `UpdateScore` then reports one row. Both methods are specified by `Post`.
- As written, the two handlers give different responses for an unknown id.
  - save-sceretime answers 404.
  - The adjust handler releases its pool client twice, and answers with an
    unhandled 500 after the rollback.
  - The model gives both handlers the 404. The `ScoreAdjust.ScoreDb.Adjust`
    line under "Left out" records the difference.

## Model

| member | source | states |
|---|---|---|
| `Js.Truthy` | app/api/auth/login/route.ts:10 | JavaScript truthiness: false exactly for `undefined`, `null`, `false`, `0`, `NaN` and the empty string |
| `Js.StrictEquals` | app/api/auth/login/route.ts:24 | `===`: equal primitive values; never true for NaN, and never true for arrays or objects, whose parsed copies are distinct objects |
| `Js.TrimStart` | app/api/scores/adjust/route.ts:42 | the result is a suffix of the input that does not start with white space, and everything removed is white space |
| `Js.TrimEnd` | app/api/scores/adjust/route.ts:42 | the result is a prefix of the input that does not end with white space, and everything removed is white space |
| `Js.Trim` | app/api/scores/adjust/route.ts:42 | `s.trim()` is a contiguous part of `s`; everything before and after it is white space; and it neither starts nor ends with white space. So exactly the white space at the two ends is removed |
| `Js.TrimEmptyIff` | app/api/scores/adjust/route.ts:42 | `s.trim() === ''` exactly when `s` is empty or consists only of white space |
| `Js.NonBlankStringIff` | app/api/scores/adjust/route.ts:54 | `!v \|\| typeof v !== 'string' \|\| v.trim() === ''` is false exactly for a string that is not all white space |
| `Js.ToLowerAscii` | app/api/articles/upload/route.ts:30 | same length as the input; capital letters become small letters and every other character is kept |
| `Js.LastSegment` | app/api/articles/upload/route.ts:30 | `split(sep).pop()` is a suffix of the input with no separator in it that starts at the input's start or right after a separator |
| `Js.LastSegmentAfterSeparator` | app/api/articles/upload/route.ts:30 | for `stem + sep + ext` with no separator in `ext`, the last segment is `ext`, whatever `stem` holds |
| `Js.LastSegmentWithoutSeparator` | app/api/articles/upload/route.ts:30 | a name without a separator is its own last segment |
| `Js.DigitPrefix` | app/api/articles/upload/route.ts:23 | the longest leading run of decimal digits |
| `Js.ParseInt10` | app/api/articles/upload/route.ts:23 | `parseInt(s, 10)`: skip leading white space, an optional sign, then the value of the leading digit run; `None` (NaN) when that run is empty |
| `Js.ParseDigits` | app/api/articles/upload/route.ts:23 | a run of digits followed by a non-digit parses to the run's decimal value, and the trailing text is ignored |
| `Js.ParseShowInt` | app/api/articles/upload/route.ts:23 | `parseInt(String(n), 10) === n` for every integer `n`, also when non-digit text follows |
| `Js.ParseSkipsLeadingSpace` | app/api/articles/upload/route.ts:23 | leading white space does not change the result of `parseInt` |
| `Js.ParseNaNIff` | app/api/articles/upload/route.ts:23-24 | `parseInt` yields NaN exactly when no digit follows the leading white space and the optional sign |
| `ScoreAdjust.Validate` | app/api/scores/adjust/route.ts:37-56 | a body is accepted exactly when ids is a non-empty array, reason and updatedBy are non-blank strings, the amount is a number and the type is `add` or `deduct`; the accepted request carries the sent values unchanged; every rejection is a 400 |
| `ScoreAdjust.ValidateFirstFailure` | app/api/scores/adjust/route.ts:39-56 | the checks run in the order ids, reason, amount, type, operator, and each error occurs exactly when its check is the first to fail |
| `ScoreAdjust.KindOf` | app/api/scores/adjust/route.ts:48-50 | the type is `Add` exactly for the string `add`, `Deduct` exactly for the string `deduct`, and rejected for every other value |
| `ScoreAdjust.SignMismatchOnlyWarns` | app/api/scores/adjust/route.ts:51-53 | `add` with a negative amount, or `deduct` with a positive one, is still accepted with the amount unchanged; the mismatch is only detected |
| `ScoreAdjust.BlankReasonRejected` | app/api/scores/adjust/route.ts:42-44 | an empty or all-white-space reason after valid ids is a 400 on the reason |
| `ScoreAdjust.Record` | app/api/scores/adjust/route.ts:102-107 | the audit row the INSERT writes for one id: the id, reason, old score, `old + amount`, amount, type, batch timestamp and operator |
| `ScoreAdjust.Batch` | app/api/scores/adjust/route.ts:68-109 | the loop as a recursive walk over `ids`: stops at the first id without a row, otherwise re-reads the score, raises it by `amount` and records one row, so a repeated id is adjusted again |
| `ScoreAdjust.BatchMissingIff` | app/api/scores/adjust/route.ts:68-81 | the walk stops exactly when some listed id has no row, and it reports the first such id |
| `ScoreAdjust.BatchKeys` | app/api/scores/adjust/route.ts:88-91 | a complete walk neither adds nor removes people |
| `ScoreAdjust.BatchScoreAt` | app/api/scores/adjust/route.ts:83-91 | after a complete walk, each person's score has moved by `amount` once for each occurrence of their id, because the current score is re-read on every iteration |
| `ScoreAdjust.BatchScores` | app/api/scores/adjust/route.ts:68-91 | the whole score table after a complete walk: the set of people is unchanged, each score is old plus `amount` times the id's count, and people who are not listed keep their score |
| `ScoreAdjust.BatchLogLength` | app/api/scores/adjust/route.ts:102-107 | a complete walk writes exactly one audit row per listed id |
| `ScoreAdjust.BatchLogAt` | app/api/scores/adjust/route.ts:83-107 | audit row `i` belongs to `ids[i]`; its old score is the score as re-read at that point (the start score plus `amount` for each earlier occurrence), and its new score is old plus `amount` |
| `ScoreAdjust.BatchLog` | app/api/scores/adjust/route.ts:66-107 | every audit row of a complete walk, in list order, with the request's reason, type and operator and one timestamp for the whole batch |
| `ScoreAdjust.BatchStep` | app/api/scores/adjust/route.ts:68-91 | one iteration at position `i`: stop at an unknown id, otherwise record the score read and continue with the score raised by `amount` |
| `ScoreAdjust.BatchLogConsistent` | app/api/scores/adjust/route.ts:84-106 | every row that the walk writes names a person on file and records `new = old + amount` |
| `ScoreAdjust.Transaction` | app/api/scores/adjust/route.ts:63-119 | BEGIN, the walk, then COMMIT with 200 and `updatedCount`, or ROLLBACK with 404 and the tables as before at the first unknown id |
| `ScoreAdjust.Post` | app/api/scores/adjust/route.ts:33-119 | the handler's response and database after it: a validation error leaves the database unchanged, otherwise the transaction runs |
| `ScoreAdjust.PostAtomic` | app/api/scores/adjust/route.ts:75-81 | a rejected request or a rolled-back batch leaves both tables exactly as they were; a validation failure is a 400 |
| `ScoreAdjust.TransactionLookup` | app/api/scores/adjust/route.ts:68-119 | a list that names an id without a row is a 404 that names such an id, which is not on file; otherwise the answer is 200 with `updatedCount` equal to the list's length |
| `ScoreAdjust.TransactionScores` | app/api/scores/adjust/route.ts:83-91 | a committed batch moves each listed score by `amount` per occurrence, leaves everyone else alone and keeps the set of people |
| `ScoreAdjust.TransactionHistory` | app/api/scores/adjust/route.ts:102-107 | a committed batch keeps the existing audit rows and appends one row per listed id, in list order, with `new = old + amount`, the reason, the operator and the batch timestamp |
| `ScoreAdjust.TransactionPreservesValid` | app/api/scores/adjust/route.ts:83-107 | a transaction keeps every audit row consistent with the people table |
| `ScoreAdjust.PostPreservesValid` | app/api/scores/adjust/route.ts:37-119 | either handler keeps every audit row consistent with the people table |
| `ScoreAdjust.ScoreDb.UpdateScore` | app/api/scores/adjust/route.ts:88-91 | the UPDATE writes the score of an existing id and reports one row; an unknown id is left alone, with zero rows |
| `ScoreAdjust.ScoreDb.RunBatch` | app/api/scores/adjust/route.ts:63-112 | the loop between BEGIN and COMMIT does what `Batch` specifies: on a missing id it restores both tables and returns that id; otherwise it leaves the walked scores and the old history followed by the new rows. That the update's row count is 1 on every iteration is an assertion in the body, derived from `UpdateScore`'s contract, and is not part of the ensures |
| `ScoreAdjust.ScoreDb.Adjust` | app/api/scores/adjust/route.ts:33-119 | from any database, the adjust handler returns the response of `Post` and leaves the tables `Post` specifies; a database whose audit rows agree with the scores still agrees afterwards |
| `ScoreAdjust.ScoreDb.SaveSceretime` | app/api/save-sceretime/route.ts:43-123 | the save-sceretime handler, which has no row-count check, returns the response of `Post` and leaves the tables `Post` specifies, like the adjust handler; it keeps the audit rows consistent |
| `SaveScore.Validate` | app/api/save-score/route.ts:70-101 | a body is accepted exactly when `player_name` is absent, null or a string of at most 255 characters and `score` is a number; the insert values are the name (or NULL) and the score; every rejection is a 400 |
| `SaveScore.Save` | app/api/save-score/route.ts:46-148 | the whole handler: 503 without a pool, then the body checks, then the insert, answering with its first row or 500 |
| `SaveScore.PoolCheckedFirst` | app/api/save-score/route.ts:48-56 | without a pool the answer is 503, whatever the body and the database |
| `SaveScore.ValidateFirstFailure` | app/api/save-score/route.ts:59-101 | the checks run in the order JSON, name type, name length, score present, score numeric, and each error occurs exactly when its check is the first to fail |
| `SaveScore.InvalidBodyNeverInserted` | app/api/save-score/route.ts:74-101 | a rejected body gets the same 400 whatever the insert would have done |
| `SaveScore.SaveSucceedsIff` | app/api/save-score/route.ts:118-130 | success exactly when the pool exists, the body is valid and the insert returns a row; the insert received the name (NULL for an absent or null name) and the score, and the answer is 201 with the first row |
| `SaveScore.InsertFailureIs500` | app/api/save-score/route.ts:131-147 | an insert that returns no row or throws is a 500 |
| `Snake.Initial` | app/pages/page.tsx:23-25 | the start state (snake `[(10,10)]`, food `(5,5)`, direction `(1,0)`, score 0) satisfies the game invariant |
| `Snake.Tick` | app/pages/page.tsx:28-51 | one frame on values: game over on a collision; otherwise the head is prepended and either the food is eaten (score up, the new food cell) or the tail is dropped |
| `Snake.Steer` | app/pages/page.tsx:62-69 | the key handler on values: an arrow key turns to its direction only across the current axis of travel; other keys change nothing |
| `Snake.TickOverIff` | app/pages/page.tsx:32-40 | the game ends exactly when the new head is on or past a wall or on any segment, the tail included; the snake, the food, the direction and the score are then left as they were |
| `Snake.WallTestExact` | app/pages/page.tsx:33-34 | under the invariant, the `< 0` / `=== 20` tests are exactly "the head left the board" |
| `Snake.TickMoves` | app/pages/page.tsx:30-51 | a frame that does not end the game moves the head by `(dx, dy)`; the rest of the body is a prefix of the old body; the length and the score grow by one exactly when the head lands on the food, which is then replaced by the new cell; otherwise the length is unchanged |
| `Snake.PrependDistinct` | app/pages/page.tsx:35-41 | adding a head that is not on the body keeps the cells distinct |
| `Snake.TickPreservesInv` | app/pages/page.tsx:30-51 | every frame keeps the invariant: all segments on the board and pairwise distinct, a unit direction, food on the board |
| `Snake.SteerTurnsOnlyAcross` | app/pages/page.tsx:62-69 | one key press keeps a unit direction and never reverses it; the direction changes only to a perpendicular one, vertically only when `dy == 0` and horizontally only when `dx == 0` |
| `Snake.TwoKeysInOneFrameReverse` | app/pages/page.tsx:62-69 | example: two presses within one frame (Up, then Left, while moving right) do reverse the direction, and with a segment behind the head the next frame ends the game |
| `Snake.SaveRequest` | app/pages/page.tsx:81-88 | the save button: no request for an empty name (the button is disabled, line 127), otherwise the body `{ player_name, score }` |
| `Snake.SaveRequestValidated` | app/pages/page.tsx:81-88 | a score is posted only with a non-empty name (the button is disabled otherwise); the server accepts it exactly when the name has at most 255 characters, and stores that name and the score |
| `Snake.SnakeGame.constructor` | app/pages/page.tsx:23-25 | the game starts in the state `Initial` |
| `Snake.SnakeGame.DrawFrame` | app/pages/page.tsx:28-51 | `drawFrame` (`unshift` the head, then eat or `pop`) leaves the state `Tick` specifies and keeps the invariant |
| `Snake.SnakeGame.OnKey` | app/pages/page.tsx:62-69 | `onKey` changes only the direction, to the one `Steer` gives, and keeps the invariant |
| `Login.FindUser` | app/api/auth/login/route.ts:14-15 | a row is found exactly when some row's username equals the parameter text; the row found is the first such row |
| `Login.WithoutPassword` | app/api/auth/login/route.ts:31 | the result has every column of the row except `password`, with the same values |
| `Login.HandleLogin` | app/api/auth/login/route.ts:6-39 | the handler: 500 for an unreadable body, 400 for a missing credential, 401 for an unknown user or a wrong password, otherwise the row found without its password |
| `Login.CredentialsRequiredIff` | app/api/auth/login/route.ts:10-12 | the 400 occurs exactly when the username or the password is falsy, before the lookup |
| `Login.UnknownUserLikeWrongPassword` | app/api/auth/login/route.ts:17-28 | an unknown user and a wrong password both give 401 with the same message |
| `Login.LoginSucceedsIff` | app/api/auth/login/route.ts:24-33 | login succeeds exactly when both credentials are given, the user exists, and the stored password is strictly equal (`===`) to the one sent |
| `Login.NoPasswordLeak` | app/api/auth/login/route.ts:30-33 | the returned user never has a `password` column and has every other column of the stored row unchanged |
| `Login.NumberPasswordDoesNotMatchString` | app/api/auth/login/route.ts:24 | example: a stored number does not match the same digits sent as a string |
| `ArticleUpload.StoredName` | app/api/articles/upload/route.ts:45 | the stored name is never empty and is the file's own name when that name is not empty |
| `ArticleUpload.Extension` | app/api/articles/upload/route.ts:30 | `name.split('.').pop().toLowerCase()`: the text after the last dot, ASCII-lower-cased |
| `ArticleUpload.LooksLikeDocx` | app/api/articles/upload/route.ts:30 | the type check passes when the MIME type is the docx type or the extension is `docx` |
| `ArticleUpload.Upload` | app/api/articles/upload/route.ts:18-46 | an accepted upload has all fields given and a file that looks like a `.docx`; the row holds the title, the converted HTML, the parsed author id and the stored file name |
| `ArticleUpload.UploadFirstFailure` | app/api/articles/upload/route.ts:18-33 | the checks run in the order fields, author id, file type, and each error occurs exactly when its check is the first to fail; the type check fails only when neither the MIME type nor the extension says docx |
| `ArticleUpload.DocxExtensionAccepted` | app/api/articles/upload/route.ts:30 | a name whose text after the last dot lower-cases to `docx` passes, whatever the MIME type |
| `ArticleUpload.DocxInAnyCase` | app/api/articles/upload/route.ts:30 | example: `DOCX`, `Docx` and `docx` all lower-case to `docx` |
| `ArticleUpload.DocxMimeAccepted` | app/api/articles/upload/route.ts:30 | the docx MIME type passes, whatever the name |
| `ArticleUpload.DotlessName` | app/api/articles/upload/route.ts:30 | for a name without a dot, the extension is the whole name, lower-cased |
| `ArticleUpload.BareDocxNameAccepted` | app/api/articles/upload/route.ts:30 | example: a file called just `docx` passes, whatever the MIME type |
| `ArticleUpload.DocFileRejected` | app/api/articles/upload/route.ts:30-33 | example: `report.doc` sent as `text/plain` is rejected |
| `ArticleUpload.StoredFilename` | app/api/articles/upload/route.ts:43-46 | the stored filename is never empty; the `untitled.docx` fallback is used only for a nameless file, which can only have passed by its MIME type |
| `ArticleUpload.ParseTwelve` | app/api/articles/upload/route.ts:23 | example: `parseInt("12abc", 10)` is 12 |
| `ArticleUpload.AuthorIdTrailingText` | app/api/articles/upload/route.ts:23-27 | example: an author id of `12abc` is accepted as author 12 |

## Left out

- Database and pool I/O is not modelled: acquiring and releasing pool clients, the SQL text, and the `FOR UPDATE` row locks. The tables are an in-memory map and sequences, and the insert results are parameters. The row locks only matter under concurrency, and the model is sequential.
- `ScoreAdjust.ScoreDb.Adjust`: on an unknown id the model answers 404, as save-sceretime does. The adjust handler as written does not reach that answer. It releases the client at `app/api/scores/adjust/route.ts:78`, and the `finally` block at lines 142-147 releases it again, because `client` is never set back to null. The pg pool throws on a second release, and a throw in `finally` replaces the pending 404 by an unhandled error (a 500 from the framework), after the ROLLBACK has run. The same double release follows the zero-row rollback at line 95. The pool library is not part of this model, so the model keeps the 404 that the code evidently intends.
- The zero-row rollback of the adjust handler (`app/api/scores/adjust/route.ts:92-98`) is not modelled as a reachable path, because sequentially it cannot fire. The body of `RunBatch` asserts, from `UpdateScore`'s contract, that every update reports one row.
- Database errors thrown during the batch are not modelled. The 500 answers of the catch blocks come from I/O failures.
- JavaScript numbers are integers here. Fractional amounts and scores, `Infinity` and floating-point rounding are not modelled. NaN is its own JSON variant.
- A JSON body of `null` is not modelled. Destructuring it throws, which leads to a 500. A body that is a number, a string, a boolean or an array destructures to undefined fields. It is modelled as a body whose fields are all `Undefined`, which the first field check rejects with 400.
- In the adjust bodies, array elements are strings. Non-string ids would reach the SQL parameter conversion, which is not modelled.
- String lengths count Unicode scalar values, not UTF-16 code units. A `player_name` with characters outside the Basic Multilingual Plane is measured differently by `length`.
- `ArticleUpload.Extension`: lower-cases only ASCII letters, through `Js.ToLowerAscii`, where `toLowerCase` covers all of Unicode. The outcome of the comparison with `docx` is unchanged; see the next line.
- `Js.ToLowerAscii`: lower-cases only ASCII letters, where `toLowerCase` covers all of Unicode. No non-ASCII character lower-cases to one of `d`, `o`, `c`, `x`, so the comparison with `docx` has the same outcome.
- `Login.FindUser`: array and object usernames match no row. The model does not include the driver's text conversion of such parameters.
- The SQL lookup returns rows in an unspecified order. The model takes the first matching row in table order.
- In the upload form, a `title` or `authorId` sent as a file, or an `articleFile` sent as text, is not modelled.
- The Word-to-HTML conversion is left out as a foreign library call. Its result is the `html` parameter. The 400 answer for a conversion error (`app/api/articles/upload/route.ts:54-56`) is not modelled.
- Logging is left out because it has no effect on the response or the tables. That includes the `console.warn` on a sign mismatch (`app/api/scores/adjust/route.ts:51-53`, `app/api/save-sceretime/route.ts:60-64`), which the model states as the predicate `SignMismatch`.
- From the clock: the batch timestamp is the parameter `now`. The other dates come from the clock and the Date library.
- `Math.random` food placement is the parameter `newFood`, an arbitrary cell on the board.
- Not modelled: canvas rendering, the 200 ms interval, key-event wiring, `alert`, and the React state around the game.
- `app/api/stats/route.ts` is not part of this model: its logic is an SQL upsert and a database function.
- `app/api/people/route.ts` and `app/api/articles/route.ts` are not part of this model: they only rename columns and wrap a truthiness check around an insert.
- `app/api/weibo-hot.ts` is not part of this model: it is an external network fetch.
- The React components and the configuration files are not part of this model.
