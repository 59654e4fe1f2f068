/**
 * The process-wide flag `dba_open` consults so that the engine's log
 * callback is installed with `sqlite3_config` only once, however many
 * stores are opened.
 */
module Lifecycle {

  class SqliteGlobals {
    /** `__sqlite_initialized__`. */
    var initialized: bool
    /** How many times `sqlite3_config` has been called. */
    var configCalls: nat

    /** The configuration call has been made exactly once once the flag is set, never before. */
    predicate Valid()
      reads this
    {
      configCalls == (if initialized then 1 else 0)
    }

    constructor ()
      ensures Valid() && !initialized
    {
      initialized := false;
      configCalls := 0;
    }

    /** The guarded configuration at the head of `dba_open`. */
    method ConfigureOnce()
      requires Valid()
      modifies this
      ensures Valid() && initialized
      ensures configCalls == 1
      ensures old(initialized) ==> configCalls == old(configCalls)
    {
      if !initialized {
        initialized := true;
        configCalls := configCalls + 1;
      }
    }
  }
}
