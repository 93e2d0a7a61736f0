/** The absence-or-value wrapper that stands for a Java reference that may be null. */
module Wrappers {

  datatype Option<+T> = None | Some(value: T)
}

/**
 * The two persisted entities of the system. Identifiers are assigned by the
 * store when a row is inserted; a value built from a request body carries
 * whatever id the body held, which the store ignores.
 */
module Entities {

  /** A row of the `account` table: (account_id, username, password). */
  datatype Account = Account(id: int, username: string, password: string)

  /** A message as the application sees it: (message_id, posted_by, message_text, time_posted_epoch). */
  datatype Message = Message(id: int, postedBy: int, text: string, postedAtEpoch: int)
}

/** What can go wrong while the store executes one INSERT. */
module Storage {

  /**
   * `FailsBeforeWrite`: the statement raises before the row is stored.
   * `FailsAfterWrite`: the row is stored but the generated key cannot be read
   * back (an exception from `getGeneratedKeys`, or a key cursor with no row).
   * In both cases the data-access method reports null.
   */
  datatype Fault = NoFault | FailsBeforeWrite | FailsAfterWrite {

    predicate Writes() {
      this != FailsBeforeWrite
    }
  }
}
