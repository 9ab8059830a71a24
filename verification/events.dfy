/** The traced-call record shared by the agent and the viewer
    (`model::event::Event`). */
module Events {
  import opened Ints

  datatype Event = Event(
    timestampMs: uint64,
    api: string,
    summary: string,
    caller: string,
    threadId: uint32,
    result: string)

  /** The api name of DLL-load events, which the viewer aggregates in its own
      table instead of listing them with the other events. */
  const DLL_LOAD_API: string := "DllLoad"
}
