/**
 The `user_commitments` table of the authentication server and the three
 functions that touch it: `save_crypto_commitment` (append a row),
 `user_exists` (membership) and `verify_crypto_commitment` (first matching
 row's commitment). The SQLite table is abstracted as the sequence of its
 rows in rowid order, which is also insertion order.
 */
module CommitmentStore {
  import opened Wrappers

  /** One row `(id, user_name, crypto_commitment)`; both text columns are NOT NULL. */
  datatype Row = Row(id: nat, userName: string, commitment: string)

  /** Row ids (the INTEGER PRIMARY KEY) strictly increase along the table. */
  ghost predicate IdsIncreasing(rows: seq<Row>)
  {
    forall i, j :: 0 <= i < j < |rows| ==> rows[i].id < rows[j].id
  }

  /**
   At most one row per user name. The table has no UNIQUE constraint on
   `user_name`, so this is not a property of the table but an invariant the
   enrollment handler has to maintain.
   */
  ghost predicate UniqueNames(rows: seq<Row>)
  {
    forall i, j :: 0 <= i < j < |rows| ==> rows[i].userName != rows[j].userName
  }

  /** Row `i` is the first row of the table whose user name is `userName`. */
  ghost predicate FirstRowOf(rows: seq<Row>, userName: string, i: int)
  {
    0 <= i < |rows| && rows[i].userName == userName &&
    forall j :: 0 <= j < i ==> rows[j].userName != userName
  }

  /**
   The id SQLite gives a row inserted without an explicit id: one more than
   the largest id in the table, or 1 when the table is empty.
   */
  function NextId(rows: seq<Row>): (id: nat)
    ensures forall i :: 0 <= i < |rows| ==> rows[i].id < id
    ensures (rows == [] && id == 1) || exists i :: 0 <= i < |rows| && rows[i].id + 1 == id
  {
    if rows == [] then 1
    else
      var last := rows[|rows| - 1].id + 1;
      var init := rows[..|rows| - 1];
      var rest := NextId(init);
      assert forall i :: 0 <= i < |init| ==> init[i] == rows[i];
      if last > rest then last else rest
  }

  /** `user_exists`: `SELECT 1 ... WHERE user_name = ?` returns a row. */
  function UserExists(rows: seq<Row>, userName: string): (b: bool)
    ensures b <==> exists i :: 0 <= i < |rows| && rows[i].userName == userName
  {
    if rows == [] then false
    else rows[0].userName == userName || UserExists(rows[1..], userName)
  }

  /**
   `verify_crypto_commitment`: the commitment of the first row whose user
   name matches (`fetchone`), or `None` when no row matches.
   */
  function StoredCommitment(rows: seq<Row>, userName: string): (r: Option<string>)
    ensures r.None? <==> !UserExists(rows, userName)
    ensures r.Some? ==> exists i :: FirstRowOf(rows, userName, i) && rows[i].commitment == r.value
  {
    if rows == [] then None
    else if rows[0].userName == userName then
      assert FirstRowOf(rows, userName, 0);
      Some(rows[0].commitment)
    else
      assert forall i :: FirstRowOf(rows[1..], userName, i) ==> FirstRowOf(rows, userName, i + 1);
      StoredCommitment(rows[1..], userName)
  }

  /** When user names are unique, the lookup finds exactly the commitment the user's row holds. */
  lemma {:induction false} LookupUnique(rows: seq<Row>, i: int)
    requires UniqueNames(rows)
    requires 0 <= i < |rows|
    ensures StoredCommitment(rows, rows[i].userName) == Some(rows[i].commitment)
  {
    if i > 0 {
      assert rows[0].userName != rows[i].userName;
      assert rows[1..][i - 1] == rows[i];
      LookupUnique(rows[1..], i - 1);
    }
  }

  /**
   With increasing ids the first row of a name in the sequence has the
   smallest id among that name's rows, so it is the row a rowid-order scan
   returns first.
   */
  lemma FirstRowHasSmallestId(rows: seq<Row>, userName: string, i: int, j: int)
    requires IdsIncreasing(rows)
    requires FirstRowOf(rows, userName, i)
    requires 0 <= j < |rows| && rows[j].userName == userName
    ensures rows[i].id <= rows[j].id
  {
  }

  /** Appending a row never changes the answer for a user who already had a row. */
  lemma {:induction false} LookupAfterAppend(rows: seq<Row>, row: Row, userName: string)
    ensures StoredCommitment(rows + [row], userName) ==
            if UserExists(rows, userName) then StoredCommitment(rows, userName)
            else if row.userName == userName then Some(row.commitment)
            else None
  {
    if rows != [] {
      assert (rows + [row])[1..] == rows[1..] + [row];
      LookupAfterAppend(rows[1..], row, userName);
    }
  }

  /** Appending a row for a name that has none keeps user names unique. */
  lemma AppendKeepsUnique(rows: seq<Row>, row: Row)
    requires UniqueNames(rows)
    requires !UserExists(rows, row.userName)
    ensures UniqueNames(rows + [row])
  {
  }

  /**
   The table itself does not enforce uniqueness: appending a row for a name
   that already has one breaks it, whatever the table holds.
   */
  lemma DuplicateRowBreaksUnique(rows: seq<Row>, userName: string, commitment: string)
    requires UserExists(rows, userName)
    ensures exists i :: 0 <= i < |rows| &&
              (rows + [Row(NextId(rows), userName, commitment)])[i].userName == userName
    ensures !UniqueNames(rows + [Row(NextId(rows), userName, commitment)])
  {
    var i :| 0 <= i < |rows| && rows[i].userName == userName;
    var extended := rows + [Row(NextId(rows), userName, commitment)];
    assert extended[i].userName == extended[|rows|].userName;
  }

  /** The database: the rows of `user_commitments`, appended to by `Save`. */
  class Store {
    var rows: seq<Row>

    ghost predicate Valid()
      reads this
    {
      IdsIncreasing(rows)
    }

    /** `init_db` on a fresh database: the table exists and is empty. */
    constructor ()
      ensures Valid() && rows == []
    {
      rows := [];
    }

    /**
     `save_crypto_commitment`: INSERT one row with the next id. No check of
     existing rows is made (the table has no UNIQUE constraint).
     */
    method Save(userName: string, commitment: string)
      requires Valid()
      modifies this
      ensures Valid()
      ensures rows == old(rows) + [Row(NextId(old(rows)), userName, commitment)]
    {
      rows := rows + [Row(NextId(rows), userName, commitment)];
    }

    /**
     `Save` for a name that already has a row succeeds and leaves two rows for
     that name: the `Save`-level form of `DuplicateRowBreaksUnique`.
     */
    method SaveDuplicate(userName: string, commitment: string)
      requires Valid() && UserExists(rows, userName)
      modifies this
      ensures Valid()
      ensures rows == old(rows) + [Row(NextId(old(rows)), userName, commitment)]
      ensures exists i :: 0 <= i < |old(rows)| && rows[i].userName == userName
      ensures rows[|rows| - 1].userName == userName
      ensures !UniqueNames(rows)
    {
      DuplicateRowBreaksUnique(rows, userName, commitment);
      Save(userName, commitment);
    }
  }
}
