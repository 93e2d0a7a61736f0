/**
 * The `account` table and the data-access object over it. The relational
 * table is an in-memory sequence of rows in insertion order; `nextId` is the
 * table's auto-increment counter, which hands out the id of the next row.
 */
module Accounts {
  import opened Wrappers
  import opened Entities
  import opened Storage

  /** Some row of `rows` has this username. */
  predicate HasUsername(rows: seq<Account>, username: string) {
    exists i :: 0 <= i < |rows| && rows[i].username == username
  }

  /** No two rows share a username: the invariant registration maintains. */
  ghost predicate UniqueUsernames(rows: seq<Account>) {
    forall i, j :: 0 <= i < j < |rows| ==> rows[i].username != rows[j].username
  }

  /** Ids are positive, below the auto-increment counter and increase along the table. */
  ghost predicate WellKeyed(rows: seq<Account>, nextId: int) {
    && 1 <= nextId
    && (forall i :: 0 <= i < |rows| ==> 1 <= rows[i].id < nextId)
    && (forall i, j :: 0 <= i < j < |rows| ==> rows[i].id < rows[j].id)
  }

  /**
   * `SELECT * FROM account WHERE username = ?`, keeping the first row the
   * cursor yields (the query has no ORDER BY; the model takes table order).
   */
  function FindByUsername(rows: seq<Account>, username: string): (r: Option<Account>)
    ensures r.Some? ==> r.value in rows && r.value.username == username
    ensures r.None? <==> !HasUsername(rows, username)
  {
    if rows == [] then None
    else if rows[0].username == username then Some(rows[0])
    else
      var rest := FindByUsername(rows[1..], username);
      assert HasUsername(rows[1..], username) ==> HasUsername(rows, username) by {
        if HasUsername(rows[1..], username) {
          var i :| 0 <= i < |rows[1..]| && rows[1..][i].username == username;
          assert rows[i + 1].username == username;
        }
      }
      assert HasUsername(rows, username) ==> HasUsername(rows[1..], username) by {
        if HasUsername(rows, username) {
          var i :| 0 <= i < |rows| && rows[i].username == username;
          assert i != 0 && rows[1..][i - 1].username == username;
        }
      }
      rest
  }

  /** With unique usernames the lookup finds exactly the row that holds the name. */
  lemma {:induction false} FindByUsernameUnique(rows: seq<Account>, a: Account)
    requires UniqueUsernames(rows)
    requires a in rows
    ensures FindByUsername(rows, a.username) == Some(a)
  {
    if rows[0] != a {
      var k :| 0 <= k < |rows| && rows[k] == a;
      assert k != 0;
      assert rows[0].username != a.username;
      assert rows[1..][k - 1] == a;
      FindByUsernameUnique(rows[1..], a);
    }
  }

  /** Appending a row whose username is not yet taken keeps usernames unique. */
  lemma AppendFreshUsername(rows: seq<Account>, a: Account)
    requires UniqueUsernames(rows)
    requires !HasUsername(rows, a.username)
    ensures UniqueUsernames(rows + [a])
  {
  }

  /** After a row is appended, looking up its username finds a row. */
  lemma {:induction false} FoundAfterInsert(rows: seq<Account>, a: Account)
    ensures FindByUsername(rows + [a], a.username).Some?
  {
    assert (rows + [a])[|rows|].username == a.username;
  }

  /** The data-access object of the `account` table. */
  class AccountDao {
    var rows: seq<Account>
    var nextId: int

    ghost predicate Valid()
      reads this
    {
      WellKeyed(rows, nextId)
    }

    /** An empty table whose auto-increment counter starts at 1. */
    constructor ()
      ensures Valid() && rows == [] && nextId == 1
    {
      rows := [];
      nextId := 1;
    }

    /** The account stored under `username`, or None when no row has it; the table is only read. */
    function GetAccountByUsername(username: string): (r: Option<Account>)
      reads this
      ensures r.Some? ==> r.value in rows && r.value.username == username
      ensures r.None? <==> !HasUsername(rows, username)
    {
      FindByUsername(rows, username)
    }

    /**
     * `INSERT INTO account (username, password) VALUES (?, ?)`. On success the
     * argument comes back with its id set to the generated key; on a store
     * fault the result is None, and the row may or may not have been written.
     */
    method InsertAccount(account: Account, fault: Fault) returns (r: Option<Account>)
      requires Valid()
      modifies this
      ensures Valid()
      ensures fault == NoFault ==> r == Some(account.(id := old(nextId)))
      ensures fault != NoFault ==> r == None
      ensures fault.Writes() ==> rows == old(rows) + [account.(id := old(nextId))] && nextId == old(nextId) + 1
      ensures !fault.Writes() ==> rows == old(rows) && nextId == old(nextId)
      ensures r.Some? ==> forall i :: 0 <= i < |old(rows)| ==> old(rows)[i].id != r.value.id
    {
      if !fault.Writes() {
        return None;
      }
      var inserted := account.(id := nextId);
      rows := rows + [inserted];
      nextId := nextId + 1;
      if fault == FailsAfterWrite {
        return None;
      }
      r := Some(inserted);
    }
  }
}
