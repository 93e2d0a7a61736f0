/**
 * The `message` table and the data-access object over it. As for accounts,
 * the relational table is an in-memory sequence of rows in insertion order
 * and `nextId` is its auto-increment counter.
 */
module Messages {
  import opened Wrappers
  import opened Entities
  import opened Storage

  /** One row of the `message` table, by column. */
  datatype MessageRow = MessageRow(messageId: int, postedBy: int, messageText: string, timePostedEpoch: int)

  /**
   * The columns a message is stored under (the INSERT binds poster, text and
   * time; the id column holds the message's id): every field is kept, so
   * the columns determine the message.
   */
  function ToRow(m: Message): (row: MessageRow)
    ensures Message(row.messageId, row.postedBy, row.messageText, row.timePostedEpoch) == m
  {
    MessageRow(m.id, m.postedBy, m.text, m.postedAtEpoch)
  }

  /** `getMessageFromResultSet`: the four columns of the current row, one to one, as a message. */
  function FromRow(row: MessageRow): (m: Message)
    ensures ToRow(m) == row
  {
    Message(row.messageId, row.postedBy, row.messageText, row.timePostedEpoch)
  }

  /** Storing a message and reading it back gives the same message. */
  lemma FromRowToRow(m: Message)
    ensures FromRow(ToRow(m)) == m
  {
  }

  /** Some row of `rows` has this message id. */
  predicate HasId(rows: seq<MessageRow>, id: int) {
    exists i :: 0 <= i < |rows| && rows[i].messageId == id
  }

  /** An id is in a non-empty table when it is in the first row or in the rest. */
  lemma HasIdCons(rows: seq<MessageRow>, id: int)
    requires rows != []
    ensures HasId(rows, id) <==> rows[0].messageId == id || HasId(rows[1..], id)
  {
    if HasId(rows, id) && rows[0].messageId != id {
      var i :| 0 <= i < |rows| && rows[i].messageId == id;
      assert rows[1..][i - 1].messageId == id;
    }
    if HasId(rows[1..], id) {
      var i :| 0 <= i < |rows[1..]| && rows[1..][i].messageId == id;
      assert rows[i + 1].messageId == id;
    }
  }

  /** Ids increase strictly along the table, so no two rows share one. */
  ghost predicate Increasing(rows: seq<MessageRow>) {
    forall i, j :: 0 <= i < j < |rows| ==> rows[i].messageId < rows[j].messageId
  }

  /** Ids are positive, below the auto-increment counter and increase along the table. */
  ghost predicate WellKeyed(rows: seq<MessageRow>, nextId: int) {
    && 1 <= nextId
    && (forall i :: 0 <= i < |rows| ==> 1 <= rows[i].messageId < nextId)
    && Increasing(rows)
  }

  /** `SELECT * FROM message`: every row, in table order. */
  function AllMessages(rows: seq<MessageRow>): (ms: seq<Message>)
    ensures |ms| == |rows|
    ensures forall i :: 0 <= i < |rows| ==> ms[i] == FromRow(rows[i])
  {
    if rows == [] then []
    else AllMessages(rows[..|rows| - 1]) + [FromRow(rows[|rows| - 1])]
  }

  /** `SELECT * FROM message WHERE posted_by = ?`: the rows of one account, in table order. */
  function PostedBy(rows: seq<MessageRow>, accountId: int): (ms: seq<Message>)
    ensures |ms| <= |rows|
  {
    if rows == [] then []
    else
      var last := rows[|rows| - 1];
      var prefix := PostedBy(rows[..|rows| - 1], accountId);
      if last.postedBy == accountId then prefix + [FromRow(last)] else prefix
  }

  /**
   * An account's list holds exactly its messages: every listed message has
   * that poster and is a stored row, and every stored row with that poster
   * is listed.
   */
  lemma {:induction false} PostedByMembers(rows: seq<MessageRow>, accountId: int)
    ensures forall j :: 0 <= j < |PostedBy(rows, accountId)| ==>
      PostedBy(rows, accountId)[j].postedBy == accountId && ToRow(PostedBy(rows, accountId)[j]) in rows
    ensures forall i :: 0 <= i < |rows| && rows[i].postedBy == accountId ==> FromRow(rows[i]) in PostedBy(rows, accountId)
  {
    if rows != [] {
      var init := rows[..|rows| - 1];
      PostedByMembers(init, accountId);
      assert forall i :: 0 <= i < |init| ==> rows[i] == init[i];
    }
  }

  /** Reading one more row adds that row to the account's list when the account posted it. */
  lemma PostedByNextRow(rows: seq<MessageRow>, i: nat, accountId: int)
    requires i < |rows|
    ensures PostedBy(rows[..i + 1], accountId)
      == PostedBy(rows[..i], accountId) + (if rows[i].postedBy == accountId then [FromRow(rows[i])] else [])
  {
    var read := rows[..i + 1];
    assert read[..|read| - 1] == rows[..i] && read[|read| - 1] == rows[i];
  }

  /** An account's list is empty exactly when it posted none of the rows. */
  lemma PostedByEmpty(rows: seq<MessageRow>, accountId: int)
    ensures PostedBy(rows, accountId) == [] <==> forall i :: 0 <= i < |rows| ==> rows[i].postedBy != accountId
  {
    var ms := PostedBy(rows, accountId);
    PostedByMembers(rows, accountId);
    if ms != [] {
      assert ToRow(ms[0]) in rows;
    }
  }

  /** Reading a prefix of the table yields a prefix of the account's list. */
  lemma {:induction false} PostedByPrefix(rows: seq<MessageRow>, n: nat, accountId: int)
    requires n <= |rows|
    ensures PostedBy(rows[..n], accountId) <= PostedBy(rows, accountId)
    decreases |rows|
  {
    if n == |rows| {
      assert rows[..n] == rows;
    } else {
      var init := rows[..|rows| - 1];
      assert rows[..n] == init[..n];
      PostedByPrefix(init, n, accountId);
      assert PostedBy(init, accountId) <= PostedBy(rows, accountId);
    }
  }

  /** What a cursor that raises after delivering `k` rows leaves in the list being built. */
  function Truncated<T>(s: seq<T>, cursorFailsAfter: Option<nat>): (t: seq<T>)
    ensures t <= s
    ensures cursorFailsAfter.None? ==> t == s
    ensures cursorFailsAfter.Some? ==> |t| == if cursorFailsAfter.value < |s| then cursorFailsAfter.value else |s|
  {
    match cursorFailsAfter
    case None => s
    case Some(k) => if k < |s| then s[..k] else s
  }

  /**
   * A list built from a prefix of a cursor's rows is what the cursor leaves:
   * either it read everything, or it stopped at the failure after `k` rows.
   */
  lemma PrefixIsTruncated<T>(part: seq<T>, whole: seq<T>, cursorFailsAfter: Option<nat>)
    requires part <= whole
    requires cursorFailsAfter.Some? ==> |part| <= cursorFailsAfter.value
    requires part == whole || (cursorFailsAfter.Some? && |part| == cursorFailsAfter.value)
    ensures part == Truncated(whole, cursorFailsAfter)
  {
  }

  /** `SELECT * FROM message WHERE message_id = ?`, first row of the result. */
  function FindById(rows: seq<MessageRow>, id: int): (r: Option<Message>)
    ensures r.Some? ==> r.value.id == id && ToRow(r.value) in rows
    ensures r.None? <==> !HasId(rows, id)
  {
    if rows == [] then None
    else if rows[0].messageId == id then Some(FromRow(rows[0]))
    else
      var rest := FindById(rows[1..], id);
      HasIdCons(rows, id);
      rest
  }

  /** `DELETE FROM message WHERE message_id = ?`: the table without the rows carrying `id`. */
  function WithoutId(rows: seq<MessageRow>, id: int): (r: seq<MessageRow>)
    ensures forall j :: 0 <= j < |r| ==> r[j].messageId != id && r[j] in rows
    ensures forall i :: 0 <= i < |rows| && rows[i].messageId != id ==> rows[i] in r
    ensures |r| <= |rows|
    ensures |r| < |rows| <==> HasId(rows, id)
  {
    if rows == [] then []
    else
      var rest := WithoutId(rows[1..], id);
      HasIdCons(rows, id);
      assert forall i :: 1 <= i < |rows| ==> rows[i] == rows[1..][i - 1];
      if rows[0].messageId == id then rest else [rows[0]] + rest
  }

  /** Deleting an id no row carries leaves the table as it was. */
  lemma {:induction false} WithoutAbsentId(rows: seq<MessageRow>, id: int)
    requires !HasId(rows, id)
    ensures WithoutId(rows, id) == rows
  {
    if rows != [] {
      HasIdCons(rows, id);
      WithoutAbsentId(rows[1..], id);
    }
  }

  /** Removing row `k > 0` is keeping the head and removing row `k - 1` of the tail. */
  lemma SplitAfterHead(rows: seq<MessageRow>, k: nat)
    requires 0 < k < |rows|
    ensures [rows[0]] + (rows[1..][..k - 1] + rows[1..][k..]) == rows[..k] + rows[k + 1..]
  {
    assert [rows[0]] + rows[1..][..k - 1] == rows[..k];
    assert rows[1..][k..] == rows[k + 1..];
  }

  /**
   * With distinct ids, deleting the id of row `k` removes that row and no
   * other, and keeps the order of the rest.
   */
  lemma {:induction false} WithoutIdRemovesOne(rows: seq<MessageRow>, id: int, k: nat)
    requires Increasing(rows)
    requires k < |rows| && rows[k].messageId == id
    ensures WithoutId(rows, id) == rows[..k] + rows[k + 1..]
  {
    if k == 0 {
      assert forall j :: 0 <= j < |rows[1..]| ==> rows[1..][j].messageId > id;
      WithoutAbsentId(rows[1..], id);
    } else {
      var tail := rows[1..];
      assert tail[k - 1] == rows[k];
      TailIncreasing(rows);
      WithoutIdRemovesOne(tail, id, k - 1);
      assert rows[0].messageId < rows[k].messageId;
      assert WithoutId(rows, id) == [rows[0]] + WithoutId(tail, id);
      SplitAfterHead(rows, k);
    }
  }

  /** Dropping the first row keeps ids increasing. */
  lemma TailIncreasing(rows: seq<MessageRow>)
    requires rows != [] && Increasing(rows)
    ensures Increasing(rows[1..])
  {
    var tail := rows[1..];
    forall i, j | 0 <= i < j < |tail|
      ensures tail[i].messageId < tail[j].messageId
    {
      assert tail[i] == rows[i + 1] && tail[j] == rows[j + 1];
    }
  }

  /** A row whose id is below every id of an increasing table can be put in front of it. */
  lemma ConsIncreasing(row: MessageRow, rest: seq<MessageRow>)
    requires Increasing(rest)
    requires forall j :: 0 <= j < |rest| ==> row.messageId < rest[j].messageId
    ensures Increasing([row] + rest)
  {
    var s := [row] + rest;
    forall i, j | 0 <= i < j < |s|
      ensures s[i].messageId < s[j].messageId
    {
      assert s[j] == rest[j - 1];
      if i > 0 {
        assert s[i] == rest[i - 1];
      }
    }
  }

  /** Deleting keeps ids increasing. */
  lemma {:induction false} WithoutIdIncreasing(rows: seq<MessageRow>, id: int)
    requires Increasing(rows)
    ensures Increasing(WithoutId(rows, id))
  {
    if rows != [] {
      var tail := rows[1..];
      TailIncreasing(rows);
      WithoutIdIncreasing(tail, id);
      var rest := WithoutId(tail, id);
      if rows[0].messageId != id {
        forall j | 0 <= j < |rest|
          ensures rows[0].messageId < rest[j].messageId
        {
          var i :| 0 <= i < |tail| && tail[i] == rest[j];
          assert rows[i + 1] == rest[j];
        }
        ConsIncreasing(rows[0], rest);
      }
    }
  }

  /** Deleting keeps the table's keys well formed. */
  lemma WithoutIdKeepsKeys(rows: seq<MessageRow>, id: int, nextId: int)
    requires WellKeyed(rows, nextId)
    ensures WellKeyed(WithoutId(rows, id), nextId)
  {
    WithoutIdIncreasing(rows, id);
  }

  /**
   * After a delete, the id is gone: looking it up finds nothing, and
   * deleting it again removes nothing.
   */
  lemma DeletedIdIsGone(rows: seq<MessageRow>, id: int)
    ensures FindById(WithoutId(rows, id), id).None?
    ensures !HasId(WithoutId(rows, id), id)
    ensures WithoutId(WithoutId(rows, id), id) == WithoutId(rows, id)
  {
    WithoutAbsentId(WithoutId(rows, id), id);
  }

  /** The data-access object of the `message` table. */
  class MessageDao {
    var rows: seq<MessageRow>
    var nextId: int

    ghost predicate Valid()
      reads this
    {
      WellKeyed(rows, nextId)
    }

    /** An empty table whose auto-increment counter starts at 1. */
    constructor ()
      ensures Valid() && rows == [] && nextId == 1
    {
      rows := [];
      nextId := 1;
    }

    /**
     * Every message, in table order; never null. If the cursor raises after
     * `k` rows, the rows read so far are returned.
     */
    method GetAllMessages(cursorFailsAfter: Option<nat>) returns (messages: seq<Message>)
      ensures messages == Truncated(AllMessages(rows), cursorFailsAfter)
      ensures cursorFailsAfter.None? ==>
        |messages| == |rows| && forall i :: 0 <= i < |rows| ==> messages[i] == FromRow(rows[i])
    {
      messages := [];
      var i := 0;
      while i < |rows| && (cursorFailsAfter.None? || i < cursorFailsAfter.value)
        invariant 0 <= i <= |rows|
        invariant cursorFailsAfter.Some? ==> i <= cursorFailsAfter.value
        invariant messages == AllMessages(rows[..i])
      {
        assert rows[..i + 1][..i] == rows[..i];
        messages := messages + [FromRow(rows[i])];
        i := i + 1;
      }
      if i == |rows| {
        assert rows[..i] == rows;
      }
    }

    /**
     * The messages posted by `accountId`, in table order; empty, never null,
     * when there are none. If the cursor raises after `k` rows of the
     * result, those rows are returned.
     */
    method GetAllMessagesByAccountId(accountId: int, cursorFailsAfter: Option<nat>) returns (messages: seq<Message>)
      ensures messages == Truncated(PostedBy(rows, accountId), cursorFailsAfter)
    {
      messages := [];
      var i := 0;
      while i < |rows| && (cursorFailsAfter.None? || |messages| < cursorFailsAfter.value)
        invariant 0 <= i <= |rows|
        invariant cursorFailsAfter.Some? ==> |messages| <= cursorFailsAfter.value
        invariant messages == PostedBy(rows[..i], accountId)
      {
        PostedByNextRow(rows, i, accountId);
        if rows[i].postedBy == accountId {
          messages := messages + [FromRow(rows[i])];
        }
        i := i + 1;
      }
      PostedByPrefix(rows, i, accountId);
      if i == |rows| {
        assert rows[..i] == rows;
      }
      PrefixIsTruncated(messages, PostedBy(rows, accountId), cursorFailsAfter);
    }

    /** The message stored under `id`, or None when no row has it; the table is only read. */
    function GetMessageById(id: int): (r: Option<Message>)
      reads this
      ensures r.Some? ==> r.value.id == id && ToRow(r.value) in rows
      ensures r.None? <==> !HasId(rows, id)
    {
      FindById(rows, id)
    }

    /**
     * `INSERT INTO message (posted_by, message_text, time_posted_epoch)`.
     * The poster, text and time are stored as given; on success the argument
     * comes back with its id set to the generated key, on a store fault the
     * result is None.
     */
    method InsertMessage(message: Message, fault: Fault) returns (r: Option<Message>)
      requires Valid()
      modifies this
      ensures Valid()
      ensures fault == NoFault ==> r == Some(message.(id := old(nextId)))
      ensures fault != NoFault ==> r == None
      ensures fault.Writes() ==> rows == old(rows) + [ToRow(message.(id := old(nextId)))] && nextId == old(nextId) + 1
      ensures !fault.Writes() ==> rows == old(rows) && nextId == old(nextId)
      ensures r.Some? ==> !HasId(old(rows), r.value.id)
    {
      if !fault.Writes() {
        return None;
      }
      var inserted := message.(id := nextId);
      rows := rows + [ToRow(inserted)];
      nextId := nextId + 1;
      if fault == FailsAfterWrite {
        return None;
      }
      r := Some(inserted);
    }

    /**
     * `UPDATE message SET message_text = ? WHERE message_id = ?`: only the
     * text changes, and only in the row carrying `messageId`. A store failure
     * raised by the statement changes nothing.
     */
    method UpdateMessageById(messageText: string, messageId: int, storeFails: bool)
      requires Valid()
      modifies this
      ensures Valid()
      ensures storeFails ==> rows == old(rows)
      ensures nextId == old(nextId) && |rows| == |old(rows)|
      ensures forall i :: 0 <= i < |rows| ==> rows[i].(messageText := old(rows)[i].messageText) == old(rows)[i]
      ensures !storeFails ==> forall i :: 0 <= i < |rows| ==>
        rows[i].messageText == if old(rows)[i].messageId == messageId then messageText else old(rows)[i].messageText
    {
      if storeFails {
        return;
      }
      rows := seq(|rows|, i requires 0 <= i < |rows| reads this =>
        if rows[i].messageId == messageId then rows[i].(messageText := messageText) else rows[i]);
    }

    /**
     * Deletes the row carrying `messageId`; true exactly when a row was
     * removed. A store failure removes nothing and reports false.
     */
    method DeleteMessageById(messageId: int, storeFails: bool) returns (deleted: bool)
      requires Valid()
      modifies this
      ensures Valid() && nextId == old(nextId)
      ensures storeFails ==> !deleted && rows == old(rows)
      ensures !storeFails ==> rows == WithoutId(old(rows), messageId) && (deleted <==> HasId(old(rows), messageId))
      ensures deleted ==>
        exists k :: (0 <= k < |old(rows)| && old(rows)[k].messageId == messageId
                     && rows == old(rows)[..k] + old(rows)[k + 1..])
      ensures !deleted ==> rows == old(rows)
    {
      if storeFails {
        return false;
      }
      var remaining := WithoutId(rows, messageId);
      deleted := |remaining| < |rows|;
      WithoutIdKeepsKeys(rows, messageId, nextId);
      if deleted {
        var k :| 0 <= k < |rows| && rows[k].messageId == messageId;
        WithoutIdRemovesOne(rows, messageId, k);
      } else {
        WithoutAbsentId(rows, messageId);
      }
      rows := remaining;
    }
  }
}
