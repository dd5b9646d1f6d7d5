/** Identities and the messages exchanged between the controller and a worker process. */
module Protocol {
  import opened Wrappers

  /** Workers and tasks are objects with identity in the source; here they carry ids. */
  type WorkerId = nat
  type TaskId = nat

  /** An argument, result or error crossing the IPC channel, kept opaque. */
  datatype Value = Value(serialized: string)

  /** A call submitted with `run(args, method)`. `methodName == None` calls the module's default export.
      The promise's `resolve`/`reject` become effects naming `id`. */
  datatype Task = Task(id: TaskId, args: seq<Value>, methodName: Option<string>, retries: nat)

  /** Controller -> child messages. `timeout == None` is an infinite `maxCallTime`. */
  datatype Request =
    | Init(modulePath: string, timeout: Option<nat>)
    | Run(methodName: Option<string>, args: seq<Value>)

  /** Child -> controller messages, told apart by their `type` field. `Other(kind)` stands for a
      message whose `type` is none of "ready", "result", "error" and "heartbeat"; a message with one
      of those types is always the matching constructor, never `Other`. */
  datatype Reply =
    | Ready
    | Result(result: Value)
    | Error(error: Value)
    | Heartbeat
    | Other(kind: string)
}
