/**
 * The run log of `记录日志`: every call appends one line. The model keeps the
 * lines in order, without the `[MM-DD HH:MM:SS]` time stamp the program puts
 * in front of each and without the console copy.
 */
module Logging {

  class Log {
    /** The lines written so far, oldest first. */
    var entries: seq<string>

    constructor ()
      ensures entries == []
    {
      entries := [];
    }

    /** `记录日志(msg)`: the log only grows, by exactly this line. */
    method Append(msg: string)
      modifies this
      ensures entries == old(entries) + [msg]
    {
      entries := entries + [msg];
    }
  }
}
