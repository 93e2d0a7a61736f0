/**
 * The account rules: registration validates a candidate account before it is
 * stored, and login compares the supplied password with the stored one.
 * The HTTP layer turns a None from `Register` into 400 and a None from
 * `Authenticate` into 401; that layer is not part of this model.
 */
module Registration {
  import opened Wrappers
  import opened Entities
  import opened Storage
  import opened Accounts

  /**
   * `Character.isWhitespace` of Java: the space, line and paragraph separators
   * other than the non-breaking spaces U+00A0, U+2007 and U+202F, plus the
   * control characters U+0009 to U+000D and U+001C to U+001F.
   */
  predicate IsWhitespace(c: char)
    ensures c == ' ' || c == '\t' || c == '\n' || c == '\r' ==> IsWhitespace(c)
    ensures c == '\U{00A0}' || c == '\U{2007}' || c == '\U{202F}' ==> !IsWhitespace(c)
    ensures IsWhitespace(c) ==> c as int <= 0xFFFF
  {
    var n := c as int;
    || 0x09 <= n <= 0x0D
    || 0x1C <= n <= 0x20
    || n == 0x1680
    || (0x2000 <= n <= 0x200A && n != 0x2007)
    || n == 0x2028 || n == 0x2029
    || n == 0x205F
    || n == 0x3000
  }

  /** `String.isBlank`: empty, or only whitespace code points. */
  predicate IsBlank(s: string)
    ensures s == [] ==> IsBlank(s)
    ensures IsBlank(s) ==> Utf16Length(s) == |s|
  {
    forall i :: 0 <= i < |s| ==> IsWhitespace(s[i])
  }

  /**
   * `String.length`: the number of UTF-16 code units, so a character beyond
   * the Basic Multilingual Plane counts twice.
   */
  function Utf16Length(s: string): (n: nat)
    ensures |s| <= n <= 2 * |s|
    ensures n == |s| <==> forall i :: 0 <= i < |s| ==> s[i] as int <= 0xFFFF
  {
    if s == [] then 0
    else
      var rest := Utf16Length(s[1..]);
      assert forall i :: 0 <= i < |s[1..]| ==> s[1..][i] == s[i + 1];
      (if s[0] as int > 0xFFFF then 2 else 1) + rest
  }

  /** The first registration rule a candidate breaks, if any, against the table `rows`. */
  predicate Rejected(rows: seq<Account>, account: Account)
    ensures account.username == [] ==> Rejected(rows, account)
    ensures !Rejected(rows, account) ==> |account.password| >= 2 && FindByUsername(rows, account.username).None?
  {
    || IsBlank(account.username)
    || Utf16Length(account.password) < 4
    || HasUsername(rows, account.username)
  }

  /** The account service; it reaches the table only through its data-access object. */
  class AccountService {
    const accountDao: AccountDao

    constructor (accountDao: AccountDao)
      ensures this.accountDao == accountDao
    {
      this.accountDao := accountDao;
    }

    /**
     * Registers `account`. The checks run in order and the first one that
     * fails returns None without touching the table: a blank username, a
     * password shorter than 4 characters, a username already stored. Only
     * then is the account inserted, and the insert's result is returned.
     */
    method Register(account: Account, fault: Fault) returns (r: Option<Account>)
      requires accountDao.Valid()
      modifies accountDao
      ensures accountDao.Valid()
      ensures IsBlank(account.username) ==> r == None && unchanged(accountDao)
      ensures Utf16Length(account.password) < 4 ==> r == None && unchanged(accountDao)
      ensures HasUsername(old(accountDao.rows), account.username) ==> r == None && unchanged(accountDao)
      ensures !Rejected(old(accountDao.rows), account) ==>
        && r == (if fault == NoFault then Some(account.(id := old(accountDao.nextId))) else None)
        && accountDao.rows == (if fault.Writes() then old(accountDao.rows) + [account.(id := old(accountDao.nextId))]
                               else old(accountDao.rows))
        && accountDao.nextId == (if fault.Writes() then old(accountDao.nextId) + 1 else old(accountDao.nextId))
      ensures r.Some? ==>
        && r.value.username == account.username && r.value.password == account.password
        && r.value in accountDao.rows
        && forall i :: 0 <= i < |old(accountDao.rows)| ==> old(accountDao.rows)[i].id != r.value.id
      ensures UniqueUsernames(old(accountDao.rows)) ==> UniqueUsernames(accountDao.rows)
    {
      if IsBlank(account.username) {
        return None;
      }
      if Utf16Length(account.password) < 4 {
        return None;
      }
      if accountDao.GetAccountByUsername(account.username).Some? {
        return None;
      }
      ghost var before := accountDao.rows;
      if UniqueUsernames(before) {
        AppendFreshUsername(before, account.(id := accountDao.nextId));
      }
      r := accountDao.InsertAccount(account, fault);
    }

    /**
     * Logs in: the stored account under the supplied username, provided its
     * password equals the supplied one; None when no account has the
     * username or the passwords differ. The table is only read.
     */
    function Authenticate(account: Account): (r: Option<Account>)
      reads accountDao
      ensures r.Some? ==>
        && r.value in accountDao.rows
        && r.value.username == account.username
        && r.value.password == account.password
      ensures !HasUsername(accountDao.rows, account.username) ==> r == None
      ensures r.None? <==>
        || accountDao.GetAccountByUsername(account.username).None?
        || accountDao.GetAccountByUsername(account.username).value.password != account.password
    {
      match accountDao.GetAccountByUsername(account.username)
      case None => None
      case Some(existing) =>
        if existing.password != account.password then None else Some(existing)
    }
  }

  /**
   * When usernames are unique, login succeeds exactly when some stored row
   * has both the supplied username and the supplied password, and it then
   * returns that row with its id.
   */
  lemma AuthenticateIff(service: AccountService, credentials: Account)
    requires UniqueUsernames(service.accountDao.rows)
    ensures service.Authenticate(credentials).Some? <==>
      exists i :: 0 <= i < |service.accountDao.rows|
        && service.accountDao.rows[i].username == credentials.username
        && service.accountDao.rows[i].password == credentials.password
  {
    var rows := service.accountDao.rows;
    if exists i :: 0 <= i < |rows| && rows[i].username == credentials.username && rows[i].password == credentials.password {
      var i :| 0 <= i < |rows| && rows[i].username == credentials.username && rows[i].password == credentials.password;
      FindByUsernameUnique(rows, rows[i]);
    }
  }

  /**
   * Once `Register` has returned an account (which is then stored, with
   * usernames still unique), logging in with its username and password
   * returns that same account, id included.
   */
  lemma LoginAfterRegistration(service: AccountService, registered: Account, credentials: Account)
    requires UniqueUsernames(service.accountDao.rows)
    requires registered in service.accountDao.rows
    requires credentials.username == registered.username && credentials.password == registered.password
    ensures service.Authenticate(credentials) == Some(registered)
  {
    FindByUsernameUnique(service.accountDao.rows, registered);
  }
}
