# Social-media backend: account rules and table semantics

This project models the core of a small social-media backend. Users register
an account (username and password) and log in with it. Messages are rows that
carry a poster, a text and a posting time. The model covers three parts:

- the account service, which validates a registration and checks a login;
- the data-access object of the `account` table, which looks a username up and
  inserts a row;
- the data-access object of the `message` table, which lists, filters, finds,
  inserts, updates and deletes rows.

The relational tables become in-memory sequences of rows in insertion order.
Each data-access object is a class whose `rows` field is the table and whose
`nextId` field is the table's auto-increment counter. `Valid()` says that ids
are positive, lie below the counter and increase along the table, so every id
handed out is fresh. Each SQL statement becomes one operation on the sequence.

Store failures are parameters of the operations that report them:

- `Fault` for an INSERT. The statement either fails before the row is written,
  or writes the row and then cannot read the generated key back. Both report
  null (`None`).
- a `storeFails` flag for a DELETE, which then reports `false`.
- `cursorFailsAfter: Option<nat>` for a list query. When the cursor raises
  after `k` rows, the code returns the list built so far, so the result is a
  prefix of the full answer.

Modules: `Wrappers` (`Option`), `Entities` (`Account`, `Message`), `Storage`
(`Fault`), `Accounts` (file `account_dao.dfy`), `Messages` (file
`message_dao.dfy`) and `Registration` (file `account_service.dfy`).

Two rules from the Java runtime are written out explicitly:

- `String.isBlank` is `IsBlank`, over the exact whitespace set of
  `Character.isWhitespace`.
- `String.length` counts UTF-16 code units. `Utf16Length` counts a character
  beyond U+FFFF twice, so the "at least 4 characters" rule is applied as the
  code applies it.

Four behaviours of the code are worth stating plainly, because the model
follows them:

- A list query that fails part-way returns the rows read so far, not an empty
  list.
- `updateMessageById` is declared to return the updated message. After the
  UPDATE, however, it reads `getResultSet()`, which is null for an update
  count, so the call ends in an uncaught NullPointerException. Only the effect
  on the table is modelled.
- There is no account lookup by id and no message validation:
  `MessageService.java` holds only constructors.
- Nothing in the account table's code makes usernames unique. Uniqueness is
  kept by `Register` alone, whose insert is guarded by a lookup: `Register`
  preserves `UniqueUsernames`.

## Model

| member | source | states |
|---|---|---|
| `Registration.AccountService.Register` | src/main/java/Service/AccountService.java:36-53 | First failing rule wins: blank username, password under 4 UTF-16 units, or username already stored each yield None and leave the table unchanged. Otherwise the result and the new table are exactly the insert's: same username and password, and a fresh id when no fault occurs. If usernames were unique before, they are still unique after, whatever the outcome. |
| `Registration.AccountService.Authenticate` | src/main/java/Service/AccountService.java:64-77 | A returned account is a stored row with the supplied username and password. None when no row has the username, or when the stored password differs. Reads the table only. |
| `Registration.AuthenticateIff` | src/main/java/Service/AccountService.java:64-77 | With unique usernames, login succeeds exactly when some row has both the supplied username and the supplied password. |
| `Registration.LoginAfterRegistration` | src/main/java/Service/AccountService.java:36-77 | Take an account that `Register` returned, so it is stored and usernames stay unique. Logging in with its username and password returns that same row, id included. |
| `Registration.IsWhitespace` | src/main/java/Service/AccountService.java:38 | Java's whitespace test: space, tab, newline and carriage return are whitespace; the non-breaking spaces U+00A0, U+2007 and U+202F are not; every whitespace character lies in the Basic Multilingual Plane. |
| `Registration.IsBlank` | src/main/java/Service/AccountService.java:38 | `String.isBlank`: the empty string is blank, and a blank string's Java length equals its character count. |
| `Registration.Rejected` | src/main/java/Service/AccountService.java:38-50 | The three registration rules together: an empty username is rejected; a candidate that passes has a password of at least 2 characters (4 UTF-16 units) and a username the lookup does not find. |
| `Registration.Utf16Length` | src/main/java/Service/AccountService.java:43 | The length Java's `String.length` reports lies between the number of characters and twice that. It equals the character count exactly when no character is beyond U+FFFF. |
| `Registration.AccountService.constructor` | src/main/java/Service/AccountService.java:22-24 | The service works on the data-access object it is given. |
| `Accounts.FindByUsername` | src/main/java/DAO/AccountDAO.java:28-42 | A found account is a stored row, columns unaltered, with that username. None exactly when no row has the username. |
| `Accounts.FindByUsernameUnique` | src/main/java/DAO/AccountDAO.java:24-48 | With unique usernames, the lookup returns precisely the row that holds the name. |
| `Accounts.AppendFreshUsername` | src/main/java/Service/AccountService.java:47-52 | Appending a row whose username no stored row has keeps usernames unique. |
| `Accounts.FoundAfterInsert` | src/main/java/DAO/AccountDAO.java:24-74 | After a row is appended, looking its username up finds an account. |
| `Accounts.AccountDao.GetAccountByUsername` | src/main/java/DAO/AccountDAO.java:24-48 | Returns a stored row with that username, or None exactly when no row has it. Reads the table only. |
| `Accounts.AccountDao.InsertAccount` | src/main/java/DAO/AccountDAO.java:56-81 | Without a fault: appends (new id, username, password) and returns the argument with its id set to the new id, which no earlier row has. With a fault: returns None, and the row is stored only if the fault came after the write. Keeps `Valid()`. |
| `Messages.ToRow` | src/main/java/DAO/MessageDAO.java:114-116 | The columns a message is stored under keep every field, so reading them back yields the same message. |
| `Messages.FromRow` | src/main/java/DAO/MessageDAO.java:193-200 | Maps the four columns one-to-one onto the message: storing the result gives back the row. |
| `Messages.FromRowToRow` | src/main/java/DAO/MessageDAO.java:111-125 | A message bound to the INSERT's columns and read back is the same message. |
| `Messages.AllMessages` | src/main/java/DAO/MessageDAO.java:30-38 | One message per row, in table order, each read from its row. |
| `Messages.PostedBy` | src/main/java/DAO/MessageDAO.java:57 | The `WHERE posted_by = ?` query lists at most as many messages as there are rows; its membership and order are stated by `PostedByMembers` and `PostedByPrefix`. |
| `Messages.PostedByMembers` | src/main/java/DAO/MessageDAO.java:57-66 | Every listed message has that poster and is a stored row. Every stored row with that poster is listed. |
| `Messages.PostedByEmpty` | src/main/java/DAO/MessageDAO.java:52-72 | An account's list is empty exactly when no row was posted by it. |
| `Messages.PostedByPrefix` | src/main/java/DAO/MessageDAO.java:64-66 | Reading the table up to any point yields a prefix of the account's list, so the list keeps table order. |
| `Messages.Truncated` | src/main/java/DAO/MessageDAO.java:36-43 | The list a failing cursor leaves behind is a prefix of the full answer: all of it when nothing fails, otherwise its first k rows (or all, if there are fewer). The same holds at lines 64-71. |
| `Messages.FindById` | src/main/java/DAO/MessageDAO.java:84-93 | A found message is a stored row with that id. None exactly when no row has the id. |
| `Messages.WithoutId` | src/main/java/DAO/MessageDAO.java:173-178 | No remaining row has the id. Every other row remains, and nothing else is added. The table shrinks exactly when some row had the id. |
| `Messages.WithoutAbsentId` | src/main/java/DAO/MessageDAO.java:164-184 | Deleting an id that no row carries leaves the table as it was. |
| `Messages.WithoutIdRemovesOne` | src/main/java/DAO/MessageDAO.java:173-178 | With distinct ids, deleting row k's id removes row k and nothing else; the others keep their order. |
| `Messages.WithoutIdKeepsKeys` | src/main/java/DAO/MessageDAO.java:169-184 | After a delete, ids are still positive, still below the counter and still increasing. |
| `Messages.DeletedIdIsGone` | src/main/java/DAO/MessageDAO.java:169-184 | After a delete, looking the id up returns None, and deleting it again removes nothing. |
| `Messages.MessageDao.GetAllMessages` | src/main/java/DAO/MessageDAO.java:25-44 | Returns every row as a message, in table order; the list is empty, not null, for an empty table. If the cursor fails after k rows, the first k are returned. |
| `Messages.MessageDao.GetAllMessagesByAccountId` | src/main/java/DAO/MessageDAO.java:52-72 | Returns exactly the rows posted by the account, in table order; empty when none match. If the cursor fails after k rows of the result, the first k are returned. |
| `Messages.MessageDao.GetMessageById` | src/main/java/DAO/MessageDAO.java:80-99 | Returns the stored row with that id, or None exactly when no row has it. Reads the table only. |
| `Messages.MessageDao.InsertMessage` | src/main/java/DAO/MessageDAO.java:107-132 | Without a fault: stores poster, text and time as given under a fresh id and returns the argument with that id. With a fault: returns None, and the row is stored only if the fault came after the write. Keeps `Valid()`. |
| `Messages.MessageDao.UpdateMessageById` | src/main/java/DAO/MessageDAO.java:141-161 | Only `message_text` changes, and only in the row carrying the id; the row count and the counter are unchanged. A store failure raised by the statement leaves the table unchanged. |
| `Messages.MessageDao.DeleteMessageById` | src/main/java/DAO/MessageDAO.java:169-184 | Returns true exactly when a row with the id existed; that row, and no other, is then removed. Otherwise returns false and leaves the table unchanged, also on a store failure. |

## Left out

- HTTP handling (`SocialMediaController.java`) is I/O plumbing: routing, JSON decoding and status codes. The controller maps a None from `Register` to 400 and a None from `Authenticate` to 401.
- `MessageService.java` holds only constructors and a placeholder, so there is nothing to model. The `createMessage` and `getAllMessages` that the controller calls do not exist in it.
- UpdateMessageById: the declared "updated message" result is not modelled, because the source dereferences the null `getResultSet()` after the UPDATE and throws. The method therefore returns nothing; its `storeFails` flag covers an `SQLException` from the UPDATE itself, which changes nothing.
- GetAccountByUsername and GetMessageById take no failure parameter. In the source an `SQLException` during these lookups is logged and reported as null, the same as "not found". Inside `register`, such a failure would let the insert go ahead without a real uniqueness check; the model does not capture that path.
- Connections, prepared statements, result-set cursors and logging are foreign library calls. The tables replace them, and logging has no functional effect.
- Java's 32-bit `int` ids and 64-bit `long` epochs are modelled as unbounded integers. The auto-increment counter never wraps.
- `null` fields (a request body with a missing field) are not modelled. In the source only `register` throws on them: `isBlank()` on a null username and `length()` on a null password raise a NullPointerException, which the HTTP layer turns into 400. On login a null username is bound as SQL NULL, which matches no row, and a null password makes `equals` false, so both simply yield null. A null message text is bound as SQL NULL; the store then keeps it or raises an `SQLException`, which is reported as null.
- InsertAccount and InsertMessage set the id on the caller's object in place. The model returns an updated copy, so aliasing of that object is not captured.
- Without `ORDER BY` a lookup returns whichever matching row the database yields first. The model takes the first in table order; with unique keys there is only one.
- The default constructors that create their own data-access objects are not modelled. The model takes the store as an explicit collaborator.
- Concurrent requests are not modelled, including a race between the username check and the insert in `register`. The model is sequential.
