/**
 The enrollment/verification protocol as a sequence of POST requests handled
 one after another, each to completion, over one table; and what the
 handler guarantees about such sequences.
 */
module Protocol {
  import opened Wrappers
  import opened CommitmentStore
  import opened Handler

  /** The responses given to a sequence of requests, in order, and the final table. */
  datatype Trace = Trace(responses: seq<Option<Outcome>>, rows: seq<Row>)

  /** Sequential execution of `do_POST` on each request in turn. */
  function Replay(rows: seq<Row>, reqs: seq<Request>): (t: Trace)
    ensures |t.responses| == |reqs|
    ensures |rows| <= |t.rows| && t.rows[..|rows|] == rows
    decreases |reqs|
  {
    if reqs == [] then Trace([], rows)
    else
      var step := PostStep(rows, reqs[0]);
      var rest := Replay(step.rows, reqs[1..]);
      Trace([step.response] + rest.responses, rest.rows)
  }

  /** Under sequential execution every table reachable from a unique one keeps one row per user name. */
  lemma {:induction false} ReplayKeepsUnique(rows: seq<Row>, reqs: seq<Request>)
    requires UniqueNames(rows)
    ensures UniqueNames(Replay(rows, reqs).rows)
    decreases |reqs|
  {
    if reqs != [] {
      EnrollKeepsUnique(rows, reqs[0].userName, reqs[0].commitment);
      ReplayKeepsUnique(PostStep(rows, reqs[0]).rows, reqs[1..]);
    }
  }

  /** A registered user's commitment is never overwritten by any later request. */
  lemma {:induction false} ReplayNeverOverwrites(rows: seq<Row>, reqs: seq<Request>, userName: string)
    requires UserExists(rows, userName)
    ensures UserExists(Replay(rows, reqs).rows, userName)
    ensures StoredCommitment(Replay(rows, reqs).rows, userName) == StoredCommitment(rows, userName)
    decreases |reqs|
  {
    if reqs != [] {
      var step := PostStep(rows, reqs[0]);
      if step.rows != rows {
        var e := EnrollStep(rows, reqs[0].userName, reqs[0].commitment);
        assert step.rows == e.rows == rows + [e.rows[|rows|]];
        LookupAfterAppend(rows, e.rows[|rows|], userName);
      }
      ReplayNeverOverwrites(step.rows, reqs[1..], userName);
    }
  }

  /** Every request is an `/enroll` of `userName` with some non-empty commitment. */
  ghost predicate EnrollsOf(reqs: seq<Request>, userName: string)
  {
    forall k :: 0 <= k < |reqs| ==>
      reqs[k].path == EnrollPath && reqs[k].userName == Some(userName) && Present(reqs[k].commitment)
  }

  /** Re-enrolling a registered user is refused every time and leaves the table alone. */
  lemma {:induction false} ReEnrollsConflict(rows: seq<Row>, reqs: seq<Request>, userName: string)
    requires userName != ""
    requires UserExists(rows, userName)
    requires EnrollsOf(reqs, userName)
    ensures Replay(rows, reqs).rows == rows
    ensures forall k :: 0 <= k < |reqs| ==> Replay(rows, reqs).responses[k] == Some(UserAlreadyExists)
    decreases |reqs|
  {
    if reqs != [] {
      assert reqs[0].path == EnrollPath && reqs[0].userName == Some(userName) && Present(reqs[0].commitment);
      assert PostStep(rows, reqs[0]) == PostResult(Some(UserAlreadyExists), rows);
      assert EnrollsOf(reqs[1..], userName) by {
        forall k | 0 <= k < |reqs| - 1 ensures reqs[1..][k] == reqs[k + 1] { }
      }
      ReEnrollsConflict(rows, reqs[1..], userName);
    }
  }

  /**
   In any sequence of requests, an enrollment of a name that was already
   registered when the sequence started answers 409, whatever came before it.
   */
  lemma {:induction false} RegisteredEnrollConflicts(rows: seq<Row>, reqs: seq<Request>, userName: string, k: int)
    requires userName != "" && UserExists(rows, userName)
    requires 0 <= k < |reqs|
    requires reqs[k].path == EnrollPath && reqs[k].userName == Some(userName) && Present(reqs[k].commitment)
    ensures Replay(rows, reqs).responses[k] == Some(UserAlreadyExists)
    decreases k
  {
    var step := PostStep(rows, reqs[0]);
    if k > 0 {
      var i :| 0 <= i < |rows| && rows[i].userName == userName;
      assert step.rows[..|rows|] == rows by {
        if reqs[0].path == EnrollPath {
          var e := EnrollStep(rows, reqs[0].userName, reqs[0].commitment);
          assert e.rows[..|rows|] == rows;
        }
      }
      assert step.rows[i] == step.rows[..|rows|][i];
      assert reqs[1..][k - 1] == reqs[k];
      RegisteredEnrollConflicts(step.rows, reqs[1..], userName, k - 1);
    }
  }

  /**
   N enrollments of one new user name, one after another: exactly the first
   is created, the other N-1 conflict, and the table gains exactly one row,
   holding the first request's commitment.
   */
  lemma SameUserEnrolledOnce(rows: seq<Row>, reqs: seq<Request>, userName: string)
    requires userName != ""
    requires !UserExists(rows, userName)
    requires |reqs| >= 1 && EnrollsOf(reqs, userName)
    ensures Replay(rows, reqs).responses[0] == Some(Created)
    ensures forall k :: 1 <= k < |reqs| ==> Replay(rows, reqs).responses[k] == Some(UserAlreadyExists)
    ensures Replay(rows, reqs).rows == rows + [Row(NextId(rows), userName, reqs[0].commitment.value)]
    ensures StoredCommitment(Replay(rows, reqs).rows, userName) == reqs[0].commitment
  {
    var row := Row(NextId(rows), userName, reqs[0].commitment.value);
    var first := PostStep(rows, reqs[0]);
    assert first == PostResult(Some(Created), rows + [row]);
    LookupAfterAppend(rows, row, userName);
    assert EnrollsOf(reqs[1..], userName) by {
      forall k | 0 <= k < |reqs| - 1 ensures reqs[1..][k] == reqs[k + 1] { }
    }
    ReEnrollsConflict(rows + [row], reqs[1..], userName);
  }

  /** Verification requests alone never change the table, and each gets the answer `Verify` gives on it. */
  lemma {:induction false} VerifiesAreReads(rows: seq<Row>, reqs: seq<Request>)
    requires forall k :: 0 <= k < |reqs| ==> reqs[k].path == VerifyPath
    ensures Replay(rows, reqs).rows == rows
    ensures forall k :: 0 <= k < |reqs| ==>
              Replay(rows, reqs).responses[k] == Some(Verify(rows, reqs[k].userName, reqs[k].commitment))
    decreases |reqs|
  {
    if reqs != [] {
      VerifiesAreReads(rows, reqs[1..]);
      var t := Replay(rows, reqs);
      forall k | 1 <= k < |reqs|
        ensures t.responses[k] == Some(Verify(rows, reqs[k].userName, reqs[k].commitment))
      {
        assert reqs[1..][k - 1] == reqs[k];
      }
    }
  }

  /** After a successful enrollment, verification succeeds exactly for the enrolled commitment. */
  lemma EnrollThenVerify(rows: seq<Row>, userName: string, commitment: string, attempt: Option<string>)
    requires userName != "" && commitment != ""
    requires !UserExists(rows, userName)
    ensures EnrollStep(rows, Some(userName), Some(commitment)).outcome == Created
    ensures Verify(EnrollStep(rows, Some(userName), Some(commitment)).rows, Some(userName), attempt) ==
            if attempt == Some(commitment) then LoginSuccessful else Unauthorized
  {
    LookupAfterAppend(rows, Row(NextId(rows), userName, commitment), userName);
  }

  /** An unregistered user who supplies a commitment (even an empty one) is refused. */
  lemma UnknownUserRefused(rows: seq<Row>, userName: string, commitment: string)
    requires userName != ""
    requires !UserExists(rows, userName)
    ensures Verify(rows, Some(userName), Some(commitment)) == Unauthorized
  {
  }

  /**
   As the handler is written, an unregistered user who sends no commitment at
   all is let in: the missing stored value and the missing supplied value
   compare equal.
   */
  lemma UnknownUserWithoutCommitmentLogsIn(rows: seq<Row>, userName: string)
    requires userName != ""
    requires !UserExists(rows, userName)
    ensures Verify(rows, Some(userName), None) == LoginSuccessful
  {
  }

  /** After alice enrolled with "AAA111": her login, a wrong attempt, her re-enrollment and unknown bob. */
  lemma AliceAfterEnrollment(rows: seq<Row>)
    requires rows == [Row(1, "alice", "AAA111")]
    ensures Replay(rows, [ Request(VerifyPath, Some("alice"), Some("AAA111")),
                           Request(VerifyPath, Some("alice"), Some("wrong")),
                           Request(EnrollPath, Some("alice"), Some("BBB222")),
                           Request(VerifyPath, Some("bob"), Some("anything")) ]).responses
            == [Some(LoginSuccessful), Some(Unauthorized), Some(UserAlreadyExists), Some(Unauthorized)]
  {
    var loginAlice := Request(VerifyPath, Some("alice"), Some("AAA111"));
    var wrongAlice := Request(VerifyPath, Some("alice"), Some("wrong"));
    var reEnrollAlice := Request(EnrollPath, Some("alice"), Some("BBB222"));
    var unknownBob := Request(VerifyPath, Some("bob"), Some("anything"));
    assert StoredCommitment(rows, "alice") == Some("AAA111");
    assert UserExists(rows, "alice") && !UserExists(rows, "bob");
    UnknownUserRefused(rows, "bob", "anything");

    var t4 := Replay(rows, [unknownBob]);
    assert t4.responses == [Some(Unauthorized)];
    var t3 := Replay(rows, [reEnrollAlice, unknownBob]);
    assert PostStep(rows, reEnrollAlice) == PostResult(Some(UserAlreadyExists), rows);
    assert [reEnrollAlice, unknownBob][1..] == [unknownBob];
    assert t3.responses == [Some(UserAlreadyExists), Some(Unauthorized)];
    var t2 := Replay(rows, [wrongAlice, reEnrollAlice, unknownBob]);
    assert [wrongAlice, reEnrollAlice, unknownBob][1..] == [reEnrollAlice, unknownBob];
    assert t2.responses == [Some(Unauthorized)] + t3.responses;
    var t1 := Replay(rows, [loginAlice, wrongAlice, reEnrollAlice, unknownBob]);
    assert [loginAlice, wrongAlice, reEnrollAlice, unknownBob][1..] == [wrongAlice, reEnrollAlice, unknownBob];
    assert t1.responses == [Some(LoginSuccessful)] + t2.responses;
  }

  /**
   Enroll alice, log her in, reject a wrong commitment, refuse a second
   enrollment, and refuse an unknown user; with the status codes sent.
   */
  lemma AliceScenario()
    ensures Replay([], [ Request(EnrollPath, Some("alice"), Some("AAA111")),
                         Request(VerifyPath, Some("alice"), Some("AAA111")),
                         Request(VerifyPath, Some("alice"), Some("wrong")),
                         Request(EnrollPath, Some("alice"), Some("BBB222")),
                         Request(VerifyPath, Some("bob"), Some("anything")) ]).responses
            == [Some(Created), Some(LoginSuccessful), Some(Unauthorized), Some(UserAlreadyExists), Some(Unauthorized)]
    ensures [Created.Status(), LoginSuccessful.Status(), Unauthorized.Status(),
             UserAlreadyExists.Status(), Unauthorized.Status()] == [201, 200, 403, 409, 403]
  {
    var enrollAlice := Request(EnrollPath, Some("alice"), Some("AAA111"));
    var tail := [ Request(VerifyPath, Some("alice"), Some("AAA111")),
                  Request(VerifyPath, Some("alice"), Some("wrong")),
                  Request(EnrollPath, Some("alice"), Some("BBB222")),
                  Request(VerifyPath, Some("bob"), Some("anything")) ];
    var rows := [Row(1, "alice", "AAA111")];
    assert PostStep([], enrollAlice) == PostResult(Some(Created), rows);
    AliceAfterEnrollment(rows);
    assert ([enrollAlice] + tail)[1..] == tail;
    assert Replay([], [enrollAlice] + tail).responses == [Some(Created)] + Replay(rows, tail).responses;
    assert [enrollAlice] + tail == [ Request(EnrollPath, Some("alice"), Some("AAA111")),
                                     Request(VerifyPath, Some("alice"), Some("AAA111")),
                                     Request(VerifyPath, Some("alice"), Some("wrong")),
                                     Request(EnrollPath, Some("alice"), Some("BBB222")),
                                     Request(VerifyPath, Some("bob"), Some("anything")) ];
  }
}
