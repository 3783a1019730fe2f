/** The server's polling loop (src/main.cpp:199-247). The engine and the
    queue are inputs: every iteration is described by a Tick that says the
    severity of the last error (if any) logged since the previous check,
    whether the engine reports that it is playing, and what the receive
    returned. */
module Dispatch {
  import opened Options
  import opened Effects

  // ---------------------------------------------------------------------
  // One message
  // ---------------------------------------------------------------------

  /** What the server does with one received message. */
  datatype Action = Ignore | Stop | Call(call: EngineCall) | ReplyInvalid

  /** The commands that map to exactly one engine call. */
  const Commands: map<string, EngineCall> :=
    map["play" := Play, "pause" := Pause, "next" := PlayNext, "prev" := PlayPrev,
        "shuffle" := SetMode(Shuffle), "loop-file" := SetMode(LoopFile)]

  /** Every message the server recognises. */
  const Vocabulary: set<string> := Commands.Keys + {"none", "kill"}

  /** The exact, case-sensitive comparison chain of src/main.cpp:220-245. */
  function Decide(msg: string): (a: Action)
    ensures a == Ignore <==> msg == "none"
    ensures a == Stop <==> msg == "kill"
    ensures a.Call? <==> msg in Commands
    ensures a.Call? ==> a.call == Commands[msg]
    ensures a == ReplyInvalid <==> msg !in Vocabulary
  {
    if msg == "none" then Ignore
    else if msg == "kill" then Stop
    else if msg == "play" then Call(Play)
    else if msg == "pause" then Call(Pause)
    else if msg == "next" then Call(PlayNext)
    else if msg == "prev" then Call(PlayPrev)
    else if msg == "shuffle" then Call(SetMode(Shuffle))
    else if msg == "loop-file" then Call(SetMode(LoopFile))
    else ReplyInvalid
  }

  /** The effects of acting on one message. */
  function MessageEffects(msg: string): (es: seq<Effect>)
    // a command of the table is exactly one engine call and no reply
    ensures msg in Commands ==> es == [Engine(Commands[msg])]
    // "none" and "kill" neither call the engine nor reply
    ensures msg == "none" || msg == "kill" ==> es == []
    // anything else is exactly one "Invalid" reply and no engine call
    ensures msg !in Vocabulary ==> es == [ToClient("Invalid")]
  {
    match Decide(msg)
    case Ignore => []
    case Stop => []
    case Call(c) => [Engine(c)]
    case ReplyInvalid => [ToClient("Invalid")]
  }

  // ---------------------------------------------------------------------
  // One iteration
  // ---------------------------------------------------------------------

  /** The inputs of one iteration: the severity of the last error logged
      since the previous check, the engine's `isPlaying()`, and the outcome
      of the receive. */
  datatype Tick = Tick(raised: Option<Severity>, playing: bool, received: Option<string>)

  predicate FatalAt(t: Tick) { t.raised == Some(Fatal) }

  predicate KillAt(t: Tick) { t.received == Some("kill") }

  /** The iteration ends the loop. */
  predicate Halts(t: Tick) { FatalAt(t) || KillAt(t) }

  /** The effects of an iteration that gets past the error check: the
      automatic advance, then the received message's effects. */
  function TickEffects(t: Tick): (es: seq<Effect>)
    // when the engine is not playing, the first thing done is one play_next
    ensures !t.playing ==> |es| > 0 && es[0] == Engine(PlayNext)
    // when nothing arrives, the advance is all that happens
    ensures t.playing && t.received == None ==> es == []
    ensures !t.playing && t.received == None ==> es == [Engine(PlayNext)]
    // the message's own effects come after the advance
    ensures t.received.Some? ==>
      es == (if t.playing then [] else [Engine(PlayNext)]) + MessageEffects(t.received.value)
  {
    var advance := if t.playing then [] else [Engine(PlayNext)];
    match t.received
    case None => advance
    case Some(msg) => advance + MessageEffects(msg)
  }

  // ---------------------------------------------------------------------
  // The loop
  // ---------------------------------------------------------------------

  /** `exit` is the value `main` returns from or after the loop, `None` if
      the ticks ran out while still running; `iterations` is the number of
      iterations begun. */
  datatype LoopResult = LoopResult(exit: Option<int>, effects: seq<Effect>, iterations: nat)

  /** `r` preceded by `n` iterations that produced `es`. */
  function After(es: seq<Effect>, n: nat, r: LoopResult): LoopResult
  {
    LoopResult(r.exit, es + r.effects, n + r.iterations)
  }

  /** What the loop does on `ticks`. */
  function Serve(ticks: seq<Tick>): LoopResult
    decreases |ticks|
  {
    if ticks == [] then LoopResult(None, [], 0)
    else if FatalAt(ticks[0]) then LoopResult(Some(1), [], 1)
    else if KillAt(ticks[0]) then LoopResult(Some(0), TickEffects(ticks[0]), 1)
    else After(TickEffects(ticks[0]), 1, Serve(ticks[1..]))
  }

  /** One iteration of `Serve` that gets past the error check. */
  lemma ServeStep(ticks: seq<Tick>, i: nat)
    requires i < |ticks| && !FatalAt(ticks[i])
    ensures KillAt(ticks[i]) ==> Serve(ticks[i..]) == LoopResult(Some(0), TickEffects(ticks[i]), 1)
    ensures !KillAt(ticks[i]) ==>
      Serve(ticks[i..]) == After(TickEffects(ticks[i]), 1, Serve(ticks[i + 1..]))
  {
    assert ticks[i..][0] == ticks[i] && ticks[i..][1..] == ticks[i + 1..];
  }

  lemma AfterAfter(es: seq<Effect>, n: nat, more: seq<Effect>, r: LoopResult)
    ensures After(es, n, After(more, 1, r)) == After(es + more, n + 1, r)
  {
    assert es + (more + r.effects) == (es + more) + r.effects;
  }

  /** The loop as the program runs it: the error flag is set by the last
      error logged since the previous check, tested, and cleared when
      recoverable; then the automatic advance; then one receive and its
      dispatch. */
  method ServeLoop(ticks: seq<Tick>) returns (r: LoopResult)
    ensures r == Serve(ticks)
  {
    var running := true;
    var errorSet, lastError := false, Recoverable;
    var effects: seq<Effect> := [];
    var i := 0;
    while running && i < |ticks|
      invariant 0 <= i <= |ticks|
      invariant !errorSet
      invariant running ==> Serve(ticks) == After(effects, i, Serve(ticks[i..]))
      invariant !running ==> Serve(ticks) == LoopResult(Some(0), effects, i)
    {
      var t := ticks[i];
      ghost var before := effects;
      if t.raised.Some? {
        errorSet, lastError := true, t.raised.value;
      }
      if errorSet {
        if lastError == Fatal {
          assert Serve(ticks[i..]) == LoopResult(Some(1), [], 1);
          return LoopResult(Some(1), effects, i + 1);
        }
        errorSet := false;
      }
      ServeStep(ticks, i);
      if !t.playing {
        effects := effects + [Engine(PlayNext)];
      }
      match t.received {
        case None =>
        case Some(msg) =>
          match Decide(msg) {
            case Ignore =>
            case Stop => running := false;
            case Call(c) => effects := effects + [Engine(c)];
            case ReplyInvalid => effects := effects + [ToClient("Invalid")];
          }
      }
      assert effects == before + TickEffects(t);
      AfterAfter(before, i, TickEffects(t), Serve(ticks[i + 1..]));
      i := i + 1;
    }
    assert running ==> ticks[i..] == [];
    r := LoopResult(if running then None else Some(0), effects, i);
  }

  // ---------------------------------------------------------------------
  // Properties of the loop
  // ---------------------------------------------------------------------

  /** The loop ends only at a fatal error (returning 1) or at a "kill"
      (returning 0), at the first iteration that meets either; with neither
      among the ticks it is still running when they run out. */
  lemma {:induction false} ServeOutcome(ticks: seq<Tick>)
    ensures var r := Serve(ticks);
      && r.iterations <= |ticks|
      && (forall k | 0 <= k < r.iterations - 1 :: !Halts(ticks[k]))
      && (r.exit == None || r.exit == Some(0) || r.exit == Some(1))
      && (r.exit == None <==> forall k | 0 <= k < |ticks| :: !Halts(ticks[k]))
      && (r.exit == None ==> r.iterations == |ticks|)
      && (r.exit == Some(1) ==> 0 < r.iterations && FatalAt(ticks[r.iterations - 1]))
      && (r.exit == Some(0) ==>
            0 < r.iterations && !FatalAt(ticks[r.iterations - 1]) && KillAt(ticks[r.iterations - 1]))
    decreases |ticks|
  {
    if ticks != [] && !Halts(ticks[0]) {
      var tail := ticks[1..];
      ServeOutcome(tail);
      assert forall k | 1 <= k < |ticks| :: ticks[k] == tail[k - 1];
    }
  }

  /** The effects of `ticks`, iteration after iteration, as if none halted. */
  function Trace(ticks: seq<Tick>): seq<Effect>
    decreases |ticks|
  {
    if ticks == [] then [] else TickEffects(ticks[0]) + Trace(ticks[1..])
  }

  /** The iterations that got past the error check. */
  function Completed(ticks: seq<Tick>): nat
  {
    var r := Serve(ticks);
    if r.exit == Some(1) then r.iterations - 1 else r.iterations
  }

  /** The loop's effects are those of its completed iterations, in order: the
      fatal iteration contributes nothing. */
  lemma {:induction false} ServeEffects(ticks: seq<Tick>)
    ensures Completed(ticks) <= |ticks|
    ensures Serve(ticks).effects == Trace(ticks[..Completed(ticks)])
    decreases |ticks|
  {
    ServeOutcome(ticks);
    if ticks == [] {
    } else if FatalAt(ticks[0]) {
    } else if KillAt(ticks[0]) {
      assert ticks[..1] == [ticks[0]] && ticks[..1][1..] == [];
    } else {
      var tail := ticks[1..];
      ServeEffects(tail);
      var c := Completed(tail);
      assert Completed(ticks) == c + 1;
      assert ticks[..c + 1][0] == ticks[0];
      assert ticks[..c + 1][1..] == tail[..c];
    }
  }

  /** Every effect of an iteration is an engine call other than opening the
      engine or playing a named track, or the reply "Invalid". */
  predicate LoopEffect(e: Effect)
  {
    e == ToClient("Invalid") || (e.Engine? && !e.call.Create? && !e.call.Init? && !e.call.PlayTrack?)
  }

  lemma {:induction false} TraceEffects(ticks: seq<Tick>)
    ensures forall e | e in Trace(ticks) :: LoopEffect(e)
    decreases |ticks|
  {
    if ticks != [] {
      TraceEffects(ticks[1..]);
      var t := ticks[0];
      match t.received {
        case None =>
        case Some(msg) =>
          var a := Decide(msg);
      }
    }
  }

  /** The loop never sends to the player queue and replies to the client
      with nothing but "Invalid". */
  lemma ServeSendsOnlyInvalid(ticks: seq<Tick>)
    ensures forall e | e in Serve(ticks).effects :: LoopEffect(e)
  {
    ServeEffects(ticks);
    TraceEffects(ticks[..Completed(ticks)]);
  }
}
