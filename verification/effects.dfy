/** The observable effects of one run of the player: opening the two named
    message queues, sending on either of them, and calls into the audio
    engine. The engine itself (the Sound class) is not modelled; its calls
    are only recorded, in the order they are made. */
module Effects {

  /** Name, capacity and message size of the two queues (src/main.cpp:35-36, 94-95). */
  const ToClientQueue: string := "revengeMusicToClient"
  const ToPlayerQueue: string := "revengeMusicToPlayer"
  const MaxMessages: nat := 2
  const MaxMessageBytes: nat := 128

  /** The playback modes the server can ask the engine to toggle. */
  datatype Mode = Shuffle | LoopFile

  /** One call into the audio engine. `Create(path)` is the construction of
      the Sound object with a directory or file path, `Init` its `init()`. */
  datatype EngineCall =
    | Create(path: string)
    | Init
    | Play
    | PlayTrack(path: string)
    | Pause
    | PlayNext
    | PlayPrev
    | SetMode(mode: Mode)

  /** Severity of the error recorded in the process-wide error flag. */
  datatype Severity = Fatal | Recoverable

  datatype Effect =
    | OpenQueue(name: string, capacity: nat, messageBytes: nat)
    | ToPlayer(msg: string)
    | ToClient(msg: string)
    | Engine(call: EngineCall)

  /** Both queues, in the order the program constructs them. */
  const Queues: seq<Effect> :=
    [OpenQueue(ToClientQueue, MaxMessages, MaxMessageBytes),
     OpenQueue(ToPlayerQueue, MaxMessages, MaxMessageBytes)]
}
