/** The constants of the bot's configuration that the ledger reads. */
module Config {
  /** The keys of `TASK_TYPES`. */
  const TASK_TYPES: set<string> := {"one-time", "recurring", "daily"}

  /** The day names a recurring task may use; they are also the first three letters of
      `strftime("%A")`, Monday first, in the English locale. */
  const VALID_DAYS: seq<string> := ["Mon", "Tue", "Wed", "Thu", "Fri", "Sat", "Sun"]

  /** History entries older than this many days are pruned on every write. */
  const HISTORY_RETENTION_DAYS: nat := 14
}
