/** The error side of the dispatcher, plugin and caller (the exceptions they
    throw) and the logger that records the ones they catch. A log call is
    modelled only as "an entry was recorded". */
module Logging {

  /** The exceptions of the modelled core, by their cause. */
  datatype Failure =
    | UnknownEvent(event: string)            // 'The event <event> not exists.'
    | MissingHandler(methodName: string)     // 'The Class ... has not the method <method>.'
    | MethodNotInClass(methodName: string)   // 'The method <method> not exists in the class.'
    | FileNotFound(path: string)             // FileNotFoundException for the class file

  /** The context array passed with a logged error. */
  datatype LogContext =
    | EventContext(name: string, arguments: seq<string>)  // ['name' => ..., 'arguments' => ...]
    | PluginContext(event: string, methodName: string)    // ['event' => ..., 'method' => ...]

  datatype LogEntry = LogEntry(failure: Failure, context: LogContext)

  class Logger {
    var entries: seq<LogEntry>

    constructor ()
      ensures entries == []
    {
      entries := [];
    }

    /** `error($message, $context)`: one more entry, at the end. */
    method Error(failure: Failure, context: LogContext)
      modifies this
      ensures entries == old(entries) + [LogEntry(failure, context)]
    {
      entries := entries + [LogEntry(failure, context)];
    }
  }
}
