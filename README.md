# One-factor authentication server: enrollment and verification

This project models the authentication server of the One-Factor-Authentication
repository (`server.py`). A client registers a username together with an opaque
cryptographic commitment, and later signs in by sending a commitment that the
server compares with the stored one.

The model has three parts:

- `CommitmentStore` (store.dfy). The SQLite table `user_commitments(id, user_name,
  crypto_commitment)` is a `Store` object whose field `rows` is the sequence of
  rows in rowid order. `Save` is `save_crypto_commitment` and appends one row with
  the id SQLite assigns, which is the largest id plus one. `UserExists` is
  `user_exists`. `StoredCommitment` is `verify_crypto_commitment`: it returns the
  commitment of the first matching row, or `None`.
- `Handler` (handler.dfy). This is the `/enroll` and `/verifyCommitment` branching
  of `RequestHandler.do_POST`. The fields of the JSON body are `Option<string>`.
  A field counts as missing when it is `None` or `""`, as Python truthiness has
  it. `Present` is Python truthiness of a string field; `EnrollStep` and
  `Verify` use it for the tests at server.py:93 and server.py:123. `Outcome` lists the six answers, each with its status code and JSON body.
  - `Enroll` is the imperative branch: two guards with early returns, then the
    insert. It is proved against the function `EnrollStep`.
  - `Verify` is the read-only branch. `HandlePost` routes on the path and is proved
    against `PostStep`.
- `Protocol` (protocol.dfy). `Replay` runs a sequence of requests one after
  another. The lemmas state what the handler guarantees over such sequences.

Behaviour of the code as written, which the model keeps:

- The table has no UNIQUE constraint on `user_name`. At most one row per user
  holds only because `/enroll` checks `user_exists` before inserting, and only
  when requests run one at a time.
- `/verifyCommitment` compares two optional values. An unregistered user who
  sends no `crypto_commitment` gets `None == None`, so the answer is
  200 "Login Successful" (`UnknownUserWithoutCommitmentLogsIn`). An unregistered
  user who sends any commitment, even `""`, gets 403.
- The code has no internal-error path. A storage failure raises out of the
  handler instead of producing an error answer.

## Model

| member | source | states |
|---|---|---|
| `CommitmentStore.NextId` | server.py:17-21 | the id given to a new row is larger than every existing id and is exactly one more than some existing id, or 1 for an empty table |
| `CommitmentStore.UserExists` | server.py:54-61 | true iff some row has exactly this user name |
| `CommitmentStore.StoredCommitment` | server.py:36-51 | `None` iff no row has the user name; otherwise the commitment of the first row with that name |
| `CommitmentStore.FirstRowHasSmallestId` | server.py:17-21 | with increasing ids, the first row of a name in the sequence has the smallest id among that name's rows, so it is the row a rowid-order scan returns first |
| `CommitmentStore.LookupUnique` | server.py:45-51 | when user names are unique, the lookup of any row's user name returns that row's commitment |
| `CommitmentStore.LookupAfterAppend` | server.py:27-51 | after appending a row, the lookup for a name that already had a row is unchanged; otherwise it finds the new row if the name matches, else `None` |
| `CommitmentStore.AppendKeepsUnique` | server.py:17-33 | appending a row for a name with no row keeps user names unique |
| `CommitmentStore.DuplicateRowBreaksUnique` | server.py:16-33 | for every table, appending a row with the next id for a name that already has a row leaves two rows with that name (an old one and the new one), so user names are no longer unique |
| `CommitmentStore.Store.constructor` | server.py:12-24 | a freshly initialised table is empty and well formed |
| `CommitmentStore.Store.SaveDuplicate` | server.py:16-33 | on any store where the name already has a row, `Save` still appends the new row, and the table then holds two rows for that name (an old one and the new last one), so user names are no longer unique |
| `CommitmentStore.Store.Save` | server.py:27-33 | appends exactly one row with the next id and the given fields; earlier rows are untouched; ids stay increasing |
| `Handler.Outcome.Status` | server.py:94-141 | each answer's status code is one of 200, 201, 400, 403, 409; the code is below 300 exactly when the body is a `message` |
| `Handler.Outcome.Body` | server.py:97-141 | the two successes (enrollment saved, login successful) carry a `message` body, every other answer an `error` body, and each text is non-empty |
| `Handler.EnrollStep` | server.py:90-112 | 400 iff a field is missing or empty; 409 iff both are present and the name already has a row; otherwise 201 with exactly one row appended that holds the name and the non-empty commitment; the table is unchanged on 400 and 409 |
| `Handler.Verify` | server.py:120-141 | 400 iff the user name is missing or empty; with a supplied commitment, 200 iff the user's first row holds it; with no commitment, 200 iff the user has no row; 403 otherwise |
| `Handler.PostStep` | server.py:80-141 | `/enroll` answers and changes the table as `EnrollStep` does; no other path changes the table; `/verifyCommitment` answers as `Verify` does; any other path writes no response |
| `Handler.EnrollStatusCodes` | server.py:93-112 | `/enroll` always answers; its status is 400 iff a field is missing or empty, 409 iff both are given and the name has a row, 201 iff both are given and the name has none |
| `Handler.VerifyStatusCodes` | server.py:123-141 | `/verifyCommitment` always answers; its status is 400 iff the user name is missing or empty, otherwise 200 iff the stored value equals the supplied one and 403 iff it does not |
| `Handler.EnrollKeepsUnique` | server.py:100-107 | the check before the insert keeps at most one row per user name |
| `Handler.Enroll` | server.py:84-112 | the store ends as `EnrollStep` says and the method answers as it says; uniqueness of names is preserved |
| `Handler.HandlePost` | server.py:80-141 | answer and new table are those of `PostStep`; uniqueness of names is preserved |
| `Protocol.Replay` | server.py:80-141 | sequential handling gives one response per request and never alters or removes existing rows |
| `Protocol.ReplayKeepsUnique` | server.py:100-112 | any sequence of requests handled one at a time keeps at most one row per user name |
| `Protocol.ReplayNeverOverwrites` | server.py:100-105 | once a user has a row, no later request changes the commitment found for that user |
| `Protocol.ReEnrollsConflict` | server.py:100-105 | every enrollment of an already registered name answers 409 and leaves the table unchanged |
| `Protocol.RegisteredEnrollConflicts` | server.py:100-105 | in any request sequence, an enrollment of a name registered at the start answers 409, whatever requests came before it |
| `Protocol.SameUserEnrolledOnce` | server.py:93-112 | N enrollments of one new name, run in sequence: the first answers 201 and the other N-1 answer 409; exactly one row is added, holding the first commitment |
| `Protocol.VerifiesAreReads` | server.py:114-141 | verification requests never change the table, so repeating one gives the same answer |
| `Protocol.EnrollThenVerify` | server.py:107-141 | after a successful enrollment, verification of that user answers 200 exactly for the enrolled commitment and 403 otherwise |
| `Protocol.UnknownUserRefused` | server.py:130-141 | an unregistered user who supplies a commitment gets 403 |
| `Protocol.UnknownUserWithoutCommitmentLogsIn` | server.py:121-136 | an unregistered user who supplies no commitment gets 200 "Login Successful" |
| `Protocol.AliceScenario` | server.py:80-141 | enroll alice (201), verify with her commitment (200), verify with a wrong one (403), enroll her again (409), verify unknown bob (403); the status codes sent are 201, 200, 403, 409, 403 |

## Left out

- HTTP framing and body parsing are left out: `Content-Length`, reading the body, `json.loads` and writing the response. The model starts from the extracted fields. Parsing happens inside each path branch, before the field checks. A missing `Content-Length` or a malformed body raises there. So does a well-formed body that is not a JSON object, such as `[]` or `"x"`, when `data.get` is called (server.py:90, 120). In each case no response is written. The model does not represent that.
- Strings holding lone surrogates are left out. `json.loads` turns an escape such as `"\ud800"` into one, but a Dafny `string` holds only Unicode scalar values. Binding such a user name to SQL raises with no response written: at server.py:58 (the `user_exists` call at server.py:100) and at server.py:45 (the lookup at server.py:130). A new user's commitment raises the same way at server.py:31; an existing name still answers 409. On `/verifyCommitment` such a commitment is only compared, so it gets 403.
- JSON field values that are not strings (numbers, lists, booleans) are left out. Fields are modelled as an optional string only.
- SQLite connection handling, commits and storage failures are left out. The table is a sequence that always accepts an insert.
- The fallback SQLite uses once a rowid reaches 2^63-1 is left out. That fallback picks a random unused id, and `NextId` models only the largest id plus one.
- `SELECT` without `ORDER BY` is assumed to return rows in rowid order. For this table, that is insertion order, because ids increase along the sequence (`FirstRowHasSmallestId`).
- `log_system_resources`, `log_request_time` and the timing calls are left out. They are observability, with floating point and OS calls.
- The `do_GET` health check and `run` are left out. They are a constant response and server start-up.
- Concurrent requests are left out. `run` starts the single-threaded `HTTPServer`, which handles one request at a time. Within one server process, the sequential `Replay` is therefore the actual behaviour. A race needs a second process on `commitments.db`, or a threading server class. Then two enrollments of the same name can both pass the check and both insert. All uniqueness results hold for sequential execution only.
- client.py is not part of this model. It is network calls, an interactive menu and logging.
- A2zkp-circuit/main.go is not part of this model. It is an external commitment-generation service: circuit compilation, witness formatting and HTTP handlers.
