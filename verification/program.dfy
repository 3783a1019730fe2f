/** The whole of `main` (src/main.cpp:39-252): the help/version short cut,
    the two queues, then either the client's single command or the server's
    start-up and polling loop. */
module Program {
  import opened Options
  import opened Effects
  import opened Arguments
  import opened Startup
  import opened Dispatch

  /** Whether this process owns the player queue (the server) or not. */
  datatype Role = Server | Client

  /** The value `main` returns (`None` while the server is still running at
      the end of the ticks) and everything it did. */
  datatype Outcome = Outcome(exit: Option<int>, effects: seq<Effect>)

  /** `musicDir` is the resolved music directory, `None` when the home or
      music directory cannot be found; `initError` is the error logged while
      the engine was opened, if any; `ticks` drive the server loop. */
  method Run(args: seq<string>, role: Role, musicDir: Option<string>,
             initError: Option<Severity>, ticks: seq<Tick>) returns (o: Outcome)
    // help and version return 0 before any queue exists
    ensures EarlyRequest(args).Some? ==> o == Outcome(Some(0), [])
    // otherwise the two queues are opened first
    ensures EarlyRequest(args).None? ==> |o.effects| >= 2 && o.effects[..2] == Queues
    // a client sends exactly one command and returns 0
    ensures EarlyRequest(args).None? && role == Client ==>
      o == Outcome(Some(0), Queues + [ToPlayer(ClientCommand(args))])
    // the server never writes to the player queue and replies only "Invalid"
    ensures role == Server ==>
      forall e | e in o.effects :: !e.ToPlayer? && (e.ToClient? ==> e.msg == "Invalid")
    // no music directory: return -1 before the engine is touched
    ensures EarlyRequest(args).None? && role == Server && musicDir.None? ==>
      o == Outcome(Some(-1), Queues)
    // the engine is opened on the planned path, then initialised
    ensures EarlyRequest(args).None? && role == Server && musicDir.Some? ==>
      var plan := StartupPlan(musicDir.value, Parse(args));
      && |o.effects| >= 4
      && o.effects[2..4] == [Engine(Create(plan.soundPath)), Engine(Init)]
      // a fatal error while opening returns 1 before anything is played
      && (initError == Some(Fatal) ==> o == Outcome(Some(1), o.effects[..4]))
      // otherwise the first play, then the loop
      && (initError != Some(Fatal) ==>
            && |o.effects| >= 5
            && o.effects[4] == Engine(plan.firstPlay)
            && o.effects[5..] == Serve(ticks).effects
            && o.exit == Serve(ticks).exit)
    // once running, the server returns 0 only after receiving "kill"
    ensures EarlyRequest(args).None? && role == Server && initError != Some(Fatal) && o.exit == Some(0) ==>
      exists k | 0 <= k < |ticks| :: KillAt(ticks[k]) && !FatalAt(ticks[k])
  {
    if EarlyRequest(args).Some? {
      return Outcome(Some(0), []);
    }
    var effects := Queues;
    if role == Client {
      var cmd := ClientCommand(args);
      return Outcome(Some(0), effects + [ToPlayer(cmd)]);
    }
    var subdirectory, trackName := ParseServerArgs(args);
    if musicDir.None? {
      return Outcome(Some(-1), effects);
    }
    var plan := StartupPlan(musicDir.value, ServerArgs(subdirectory, trackName));
    effects := effects + [Engine(Create(plan.soundPath)), Engine(Init)];
    if initError == Some(Fatal) {
      return Outcome(Some(1), effects);
    }
    effects := effects + [Engine(plan.firstPlay)];
    var r := ServeLoop(ticks);
    ServeOutcome(ticks);
    ServeSendsOnlyInvalid(ticks);
    o := Outcome(r.exit, effects + r.effects);
    assert o.effects[5..] == r.effects;
    forall e | e in o.effects ensures !e.ToPlayer? && (e.ToClient? ==> e.msg == "Invalid") {
      if e in r.effects {
        assert LoopEffect(e);
      } else {
        assert e in effects;
      }
    }
    if o.exit == Some(0) {
      var k := r.iterations - 1;
      assert KillAt(ticks[k]) && !FatalAt(ticks[k]);
    }
  }
}
