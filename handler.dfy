/**
 `RequestHandler.do_POST`: the `/enroll` and `/verifyCommitment` branches
 over the commitment store. The JSON body is taken as already parsed: each
 field is `None` when the key is absent or `null`, `Some(s)` for a string value.
 */
module Handler {
  import opened Wrappers
  import opened CommitmentStore

  const EnrollPath := "/enroll"
  const VerifyPath := "/verifyCommitment"

  /** The JSON object written back: `{"message": ...}` or `{"error": ...}`. */
  datatype JsonBody = Message(text: string) | Error(text: string)

  /** Every answer `do_POST` can give, each with its status code and body. */
  datatype Outcome =
    | Created            // 201, enrollment saved
    | MissingFields      // 400 on /enroll
    | UserAlreadyExists  // 409
    | LoginSuccessful    // 200
    | MissingUsername    // 400 on /verifyCommitment
    | Unauthorized       // 403
  {
    /** The HTTP status code; the two success codes are exactly the ones whose body is a message. */
    function Status(): (code: nat)
      ensures code in {200, 201, 400, 403, 409}
      ensures code < 300 <==> Body().Message?
    {
      match this
      case Created => 201
      case MissingFields => 400
      case UserAlreadyExists => 409
      case LoginSuccessful => 200
      case MissingUsername => 400
      case Unauthorized => 403
    }

    /** The JSON body: `{"message": ...}` for the two successes, `{"error": ...}` for the rest. */
    function Body(): (body: JsonBody)
      ensures body.Message? <==> this == Created || this == LoginSuccessful
      ensures body.text != ""
    {
      match this
      case Created => Message("Crypto commitment and username saved successfully!")
      case MissingFields => Error("Missing username or crypto commitment")
      case UserAlreadyExists => Error("User already exists")
      case LoginSuccessful => Message("Login Successful")
      case MissingUsername => Error("Missing username")
      case Unauthorized => Error("Unauthorized")
    }
  }

  /** A POST request: its path and the two fields read from its JSON body. */
  datatype Request = Request(path: string, userName: Option<string>, commitment: Option<string>)

  /** Python truthiness of a field: neither `None` nor the empty string. */
  predicate Present(field: Option<string>)
  {
    field.Some? && field.value != ""
  }

  /** The answer of `/enroll` and the table afterwards. */
  datatype EnrollResult = EnrollResult(outcome: Outcome, rows: seq<Row>)

  /**
   The `/enroll` branch as a function of the table: reject missing fields,
   reject a name that already has a row, otherwise append one row.
   */
  function EnrollStep(rows: seq<Row>, userName: Option<string>, commitment: Option<string>): (out: EnrollResult)
    ensures out.outcome in {Created, MissingFields, UserAlreadyExists}
    ensures out.outcome == MissingFields <==> !Present(userName) || !Present(commitment)
    ensures out.outcome == UserAlreadyExists <==>
              Present(userName) && Present(commitment) &&
              exists i :: 0 <= i < |rows| && rows[i].userName == userName.value
    ensures out.outcome != Created ==> out.rows == rows
    ensures out.outcome == Created ==>
              |out.rows| == |rows| + 1 && out.rows[..|rows|] == rows &&
              out.rows[|rows|].userName == userName.value &&
              out.rows[|rows|].commitment == commitment.value &&
              out.rows[|rows|].commitment != "" &&
              forall i :: 0 <= i < |rows| ==> rows[i].id < out.rows[|rows|].id
  {
    if !Present(userName) || !Present(commitment) then
      EnrollResult(MissingFields, rows)
    else if UserExists(rows, userName.value) then
      EnrollResult(UserAlreadyExists, rows)
    else
      EnrollResult(Created, rows + [Row(NextId(rows), userName.value, commitment.value)])
  }

  /**
   The `/verifyCommitment` branch: a missing user name is rejected without
   reading the table; otherwise the stored value (or `None`) is compared
   with the supplied value (or `None`), so that an unknown user who sends
   no commitment is let in.
   */
  function Verify(rows: seq<Row>, userName: Option<string>, commitment: Option<string>): (outcome: Outcome)
    ensures outcome in {LoginSuccessful, MissingUsername, Unauthorized}
    ensures outcome == MissingUsername <==> !Present(userName)
    ensures Present(userName) && commitment.Some? ==>
              (outcome == LoginSuccessful <==>
                 exists i :: FirstRowOf(rows, userName.value, i) && rows[i].commitment == commitment.value)
    ensures Present(userName) && commitment.None? ==>
              (outcome == LoginSuccessful <==>
                 forall i :: 0 <= i < |rows| ==> rows[i].userName != userName.value)
  {
    if !Present(userName) then MissingUsername
    else if StoredCommitment(rows, userName.value) == commitment then LoginSuccessful
    else Unauthorized
  }

  /** The answer of `do_POST` (`None` when no response is written) and the table afterwards. */
  datatype PostResult = PostResult(response: Option<Outcome>, rows: seq<Row>)

  /** `do_POST` dispatching on the path; any other path writes no response. */
  function PostStep(rows: seq<Row>, req: Request): (out: PostResult)
    ensures req.path == EnrollPath ==>
              out.response == Some(EnrollStep(rows, req.userName, req.commitment).outcome) &&
              out.rows == EnrollStep(rows, req.userName, req.commitment).rows
    ensures req.path != EnrollPath ==> out.rows == rows
    ensures req.path != EnrollPath && req.path != VerifyPath ==> out.response == None
    ensures req.path == VerifyPath ==> out.response == Some(Verify(rows, req.userName, req.commitment))
  {
    if req.path == EnrollPath then
      var e := EnrollStep(rows, req.userName, req.commitment);
      PostResult(Some(e.outcome), e.rows)
    else if req.path == VerifyPath then
      PostResult(Some(Verify(rows, req.userName, req.commitment)), rows)
    else
      PostResult(None, rows)
  }

  /** The status code `/enroll` sends: 400 for a missing field, 409 for a taken name, 201 otherwise. */
  lemma EnrollStatusCodes(rows: seq<Row>, userName: Option<string>, commitment: Option<string>)
    ensures PostStep(rows, Request(EnrollPath, userName, commitment)).response.Some?
    ensures var code := PostStep(rows, Request(EnrollPath, userName, commitment)).response.value.Status();
            (code == 400 <==> !Present(userName) || !Present(commitment)) &&
            (code == 409 <==> Present(userName) && Present(commitment) && UserExists(rows, userName.value)) &&
            (code == 201 <==> Present(userName) && Present(commitment) && !UserExists(rows, userName.value))
  {
  }

  /** The status code `/verifyCommitment` sends: 400 for a missing user name, else 200 on a match and 403 otherwise. */
  lemma VerifyStatusCodes(rows: seq<Row>, userName: Option<string>, commitment: Option<string>)
    ensures PostStep(rows, Request(VerifyPath, userName, commitment)).response.Some?
    ensures var code := PostStep(rows, Request(VerifyPath, userName, commitment)).response.value.Status();
            (code == 400 <==> !Present(userName)) &&
            (code == 200 <==> Present(userName) && StoredCommitment(rows, userName.value) == commitment) &&
            (code == 403 <==> Present(userName) && StoredCommitment(rows, userName.value) != commitment)
  {
  }

  /** Enrolling keeps at most one row per user name. */
  lemma EnrollKeepsUnique(rows: seq<Row>, userName: Option<string>, commitment: Option<string>)
    requires UniqueNames(rows)
    ensures UniqueNames(EnrollStep(rows, userName, commitment).rows)
  {
    if Present(userName) && Present(commitment) && !UserExists(rows, userName.value) {
      AppendKeepsUnique(rows, Row(NextId(rows), userName.value, commitment.value));
    }
  }

  /**
   The `/enroll` branch: guard checks with early returns, then the insert.
   The check and the insert are separate steps, so uniqueness holds only
   under sequential execution.
   */
  method Enroll(db: Store, userName: Option<string>, commitment: Option<string>) returns (outcome: Outcome)
    requires db.Valid()
    modifies db
    ensures db.Valid()
    ensures EnrollResult(outcome, db.rows) == EnrollStep(old(db.rows), userName, commitment)
    ensures UniqueNames(old(db.rows)) ==> UniqueNames(db.rows)
  {
    if !Present(userName) || !Present(commitment) {
      return MissingFields;
    }
    if UserExists(db.rows, userName.value) {
      return UserAlreadyExists;
    }
    if UniqueNames(db.rows) {
      AppendKeepsUnique(db.rows, Row(NextId(db.rows), userName.value, commitment.value));
    }
    db.Save(userName.value, commitment.value);
    return Created;
  }

  /** `do_POST`: route on the path; `/verifyCommitment` only reads the table. */
  method HandlePost(db: Store, req: Request) returns (response: Option<Outcome>)
    requires db.Valid()
    modifies db
    ensures db.Valid()
    ensures PostResult(response, db.rows) == PostStep(old(db.rows), req)
    ensures UniqueNames(old(db.rows)) ==> UniqueNames(db.rows)
  {
    if req.path == EnrollPath {
      var outcome := Enroll(db, req.userName, req.commitment);
      response := Some(outcome);
    } else if req.path == VerifyPath {
      response := Some(Verify(db.rows, req.userName, req.commitment));
    } else {
      response := None;
    }
  }
}
