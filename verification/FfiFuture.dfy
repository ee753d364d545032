/**
  The future handle that crosses the plugin boundary (oj-plugin-ffi/src/future.rs). A producer task
  sends at most one result through a one-shot channel; the host polls, takes and frees. The host's
  calls are serial, the producer runs whenever it likes: a run is any interleaving of their steps.
 */
module FfiFuture {
  import opened Wrappers

  datatype Outcome = Value(bytes: seq<int>) | Failure(message: string)

  /** 1 ready, -1 error (0 is pending). */
  function Code(r: Outcome): (c: int)
    ensures c == 1 || c == -1
  {
    if r.Value? then 1 else -1
  }

  const PENDING := 0
  const ERROR := -1

  datatype TakeResult = Handed(outcome: Outcome) | NotReady

  /**
    One task as both sides see it. `produced`, `handed` and `dropped` record what became of results
    over the run; they play no part in the behaviour.
   */
  datatype State = State(
    sending: bool,             // the producer still holds the sender
    channel: Option<Outcome>,  // sent, not yet received
    drained: bool,             // the receiver has seen the end of the channel
    slot: Option<Outcome>,     // received by a poll, waiting for take
    alive: bool,               // not freed
    produced: seq<Outcome>,
    handed: seq<Outcome>,
    dropped: seq<Outcome>)

  datatype Event = Send(result: Outcome) | DropSender | Poll | Take | Free

  function Spawned(): State {
    State(true, None, false, None, true, [], [], [])
  }

  /** `ready_ok` / `ready_err`: no sender, the result already in the slot. */
  function Ready(r: Outcome): State {
    State(false, None, false, Some(r), true, [r], [], [])
  }

  /** `Receiver::try_recv` on a one-shot channel. */
  datatype Received = Got(outcome: Outcome) | Empty | Closed

  function TryRecv(s: State): Received {
    if s.drained then Closed
    else if s.channel.Some? then Got(s.channel.value)
    else if s.sending then Empty
    else Closed
  }

  function PollStep(s: State): (State, int) {
    if s.slot.Some? then (s, Code(s.slot.value))
    else match TryRecv(s)
      case Got(r) => (s.(channel := None, drained := true, slot := Some(r)), Code(r))
      case Empty => (s, PENDING)
      case Closed => (s.(drained := true), ERROR)
  }

  function TakeStep(s: State): (State, TakeResult) {
    match s.slot
    case Some(r) => (s.(slot := None, handed := s.handed + [r]), Handed(r))
    case None => (s, NotReady)
  }

  function Contents(o: Option<Outcome>): seq<Outcome> {
    if o.Some? then [o.value] else []
  }

  function FreeStep(s: State): State {
    s.(alive := false, channel := None, slot := None, drained := true,
       dropped := s.dropped + Contents(s.channel) + Contents(s.slot))
  }

  /** Sending to a freed task gives the value back to the sender, which drops it. */
  function SendStep(s: State, r: Outcome): State {
    var t := s.(sending := false, produced := s.produced + [r]);
    if s.alive then t.(channel := Some(r)) else t.(dropped := s.dropped + [r])
  }

  function Step(s: State, e: Event): State {
    match e
    case Send(r) => SendStep(s, r)
    case DropSender => s.(sending := false)
    case Poll => PollStep(s).0
    case Take => TakeStep(s).0
    case Free => FreeStep(s)
  }

  /** The producer acts once; the host does not touch a handle it has freed. */
  predicate Enabled(s: State, e: Event) {
    match e
    case Send(_) => s.sending
    case DropSender => s.sending
    case _ => s.alive
  }

  function Run(s: State, events: seq<Event>): State
    decreases |events|
  {
    if events == [] then s else Run(Step(s, events[0]), events[1..])
  }

  predicate IsRun(s: State, events: seq<Event>)
    decreases |events|
  {
    events == [] || (Enabled(s, events[0]) && IsRun(Step(s, events[0]), events[1..]))
  }

  ghost predicate IsStart(s: State) {
    s == Spawned() || exists r :: s == Ready(r)
  }

  // ----- the object the plugin allocates -----

  class FfiTask {
    var sending: bool
    var channel: Option<Outcome>
    var drained: bool
    var result: Option<Outcome>
    var alive: bool
    ghost var produced: seq<Outcome>
    ghost var handed: seq<Outcome>
    ghost var dropped: seq<Outcome>

    ghost function Abstract(): State
      reads this
    {
      State(sending, channel, drained, result, alive, produced, handed, dropped)
    }

    constructor Spawn()
      ensures Abstract() == Spawned()
    {
      sending, channel, drained, result, alive := true, None, false, None, true;
      produced, handed, dropped := [], [], [];
    }

    constructor ReadyWith(r: Outcome)
      ensures Abstract() == Ready(r)
    {
      sending, channel, drained, result, alive := false, None, false, Some(r), true;
      produced, handed, dropped := [r], [], [];
    }

    method Poll() returns (code: int)
      requires alive
      modifies this
      ensures (Abstract(), code) == PollStep(old(Abstract()))
    {
      if result.Some? {
        code := if result.value.Value? then 1 else -1;
      } else if !drained && channel.Some? {
        code := if channel.value.Value? then 1 else -1;
        result, channel, drained := channel, None, true;
      } else if !drained && sending {
        code := PENDING;
      } else {
        drained := true;
        code := ERROR;
      }
    }

    method Take() returns (r: TakeResult)
      requires alive
      modifies this
      ensures (Abstract(), r) == TakeStep(old(Abstract()))
    {
      if result.Some? {
        r := Handed(result.value);
        handed := handed + [result.value];
        result := None;
      } else {
        r := NotReady;
      }
    }

    method Free()
      requires alive
      modifies this
      ensures Abstract() == FreeStep(old(Abstract()))
    {
      dropped := dropped + Contents(channel) + Contents(result);
      channel, result, drained, alive := None, None, true, false;
    }

    method Send(r: Outcome)
      requires sending
      modifies this
      ensures Abstract() == SendStep(old(Abstract()), r)
    {
      sending := false;
      produced := produced + [r];
      if alive {
        channel := Some(r);
      } else {
        dropped := dropped + [r];
      }
    }

    method DropSender()
      requires sending
      modifies this
      ensures Abstract() == old(Abstract()).(sending := false)
    {
      sending := false;
    }
  }

  // ----- what every run keeps -----

  /** Where results are: the channel, the slot, the host's hands, dropped. */
  function Places(s: State): seq<Outcome> {
    Contents(s.channel) + Contents(s.slot) + s.handed + s.dropped
  }

  /** At most one result is ever produced, and it is in exactly one place. */
  predicate Conserved(s: State) {
    |s.produced| <= 1 && Places(s) == s.produced
  }

  predicate Inv(s: State) {
    && Conserved(s)
    && (s.sending ==> s.produced == [] && (s.alive ==> !s.drained))
    && (s.drained ==> s.channel == None)
    && (!s.alive ==> s.slot == None && s.drained)
  }

  lemma StepKeepsInv(s: State, e: Event)
    requires Inv(s) && Enabled(s, e)
    ensures Inv(Step(s, e))
  {
    PlacesByLength(s);
  }

  /** With at most one result, at most one place is occupied. */
  lemma PlacesByLength(s: State)
    requires Conserved(s)
    ensures |Contents(s.channel)| + |Contents(s.slot)| + |s.handed| + |s.dropped| == |s.produced| <= 1
  {
  }

  lemma {:induction false} RunKeepsInv(s: State, events: seq<Event>)
    requires Inv(s) && IsRun(s, events)
    ensures Inv(Run(s, events))
    decreases |events|
  {
    if events != [] {
      StepKeepsInv(s, events[0]);
      RunKeepsInv(Step(s, events[0]), events[1..]);
    }
  }

  /** Over every interleaving: nothing is lost or duplicated, and a result is handed out at most once. */
  lemma EveryRunConserves(start: State, events: seq<Event>)
    requires IsStart(start) && IsRun(start, events)
    ensures Inv(Run(start, events))
    ensures |Run(start, events).handed| <= 1
  {
    RunKeepsInv(start, events);
    PlacesByLength(Run(start, events));
  }

  /** The code the next poll would return. */
  function NextPoll(s: State): int {
    PollStep(s).1
  }

  /** One step: a non-zero poll code survives everything but take and free. */
  lemma CodeSurvivesStep(s: State, e: Event)
    requires Inv(s) && Enabled(s, e) && s.alive && NextPoll(s) != PENDING
    requires !e.Take? && !e.Free?
    ensures Step(s, e).alive && NextPoll(Step(s, e)) == NextPoll(s)
  {
    if s.sending {
      NothingInFlight(s);
    }
  }

  lemma NothingInFlight(s: State)
    requires Inv(s) && s.sending
    ensures s.channel == None && s.slot == None && s.handed == [] && s.dropped == []
  {
    PlacesByLength(s);
  }

  /** The poll code is stable from the first non-zero one until the result is taken. */
  lemma {:induction false} CodeIsStable(s: State, events: seq<Event>)
    requires Inv(s) && s.alive && IsRun(s, events) && NextPoll(s) != PENDING
    requires Take !in events && Free !in events
    ensures NextPoll(Run(s, events)) == NextPoll(s)
    decreases |events|
  {
    if events != [] {
      CodeSurvivesStep(s, events[0]);
      StepKeepsInv(s, events[0]);
      CodeIsStable(Step(s, events[0]), events[1..]);
    }
  }

  /** No wake-up is lost: once sent, the result is what every poll reports until it is taken. */
  lemma SentIsSeen(s: State, r: Outcome, events: seq<Event>)
    requires Inv(s) && s.alive && s.sending
    requires IsRun(Step(s, Send(r)), events) && Take !in events && Free !in events
    ensures NextPoll(Run(Step(s, Send(r)), events)) == Code(r)
  {
    NothingInFlight(s);
    StepKeepsInv(s, Send(r));
    CodeIsStable(Step(s, Send(r)), events);
  }

  lemma {:induction false} RunConcat(s: State, a: seq<Event>, b: seq<Event>)
    ensures Run(s, a + b) == Run(Run(s, a), b)
    ensures IsRun(s, a + b) <==> IsRun(s, a) && IsRun(Run(s, a), b)
    decreases |a|
  {
    hide Step, Enabled;
    if a == [] {
      assert a + b == b;
    } else {
      assert (a + b)[1..] == a[1..] + b;
      RunConcat(Step(s, a[0]), a[1..], b);
    }
  }

  /** Takes that come too early leave no trace: the run with them ends as the run without them does. */
  lemma EarlyTakeLosesNothing(s: State, before: seq<Event>, after: seq<Event>)
    requires IsRun(s, before) && Run(s, before).alive && TakeStep(Run(s, before)).1.NotReady?
    ensures IsRun(s, before + [Take] + after) <==> IsRun(s, before + after)
    ensures Run(s, before + [Take] + after) == Run(s, before + after)
  {
    var t := Run(s, before);
    assert Step(t, Take) == t && Enabled(t, Take);
    RunConcat(s, before + [Take], after);
    RunConcat(s, before, [Take]);
    RunConcat(s, before, after);
    assert Run(t, [Take]) == Run(Step(t, Take), [][..]) == t;
  }

  /** Once a result was handed out, everything is over: each later poll is an error, each later take refused. */
  lemma {:induction false} AfterTakeAlwaysError(s: State, events: seq<Event>)
    requires Inv(s) && s.alive && s.handed != [] && IsRun(s, events)
    ensures var t := Run(s, events);
            t.handed == s.handed && NextPoll(t) == ERROR && TakeStep(t).1 == NotReady
    decreases |events|
  {
    PlacesByLength(s);
    if events != [] {
      StepKeepsInv(s, events[0]);
      if events[0].Free? {
        FreedIsFinal(Step(s, events[0]), events[1..]);
      } else {
        AfterTakeAlwaysError(Step(s, events[0]), events[1..]);
      }
    }
  }

  lemma {:induction false} FreedIsFinal(s: State, events: seq<Event>)
    requires Inv(s) && !s.alive && IsRun(s, events)
    ensures var t := Run(s, events); !t.alive && t.handed == s.handed && t.slot == None && t.drained
    decreases |events|
  {
    if events != [] {
      StepKeepsInv(s, events[0]);
      FreedIsFinal(Step(s, events[0]), events[1..]);
    }
  }

  /** Some poll of the run reported a result. */
  predicate SawResult(s: State, events: seq<Event>)
    decreases |events|
  {
    events != [] &&
    ((events[0].Poll? && PollStep(s).0.slot.Some?) || SawResult(Step(s, events[0]), events[1..]))
  }

  /** A task created by `spawn` hands out a result only after a poll has seen it. */
  lemma {:induction false} HandedOnlyAfterSeen(s: State, events: seq<Event>)
    requires s.slot == None && s.handed == [] && IsRun(s, events)
    requires Run(s, events).handed != []
    ensures SawResult(s, events)
    decreases |events|
  {
    if events == [] {
    } else if events[0].Poll? && PollStep(s).0.slot.Some? {
    } else {
      HandedOnlyAfterSeen(Step(s, events[0]), events[1..]);
    }
  }

  /** A result the producer sent stays available until the host takes it or gives it up. */
  lemma SpawnedDelivers(before: seq<Event>, r: Outcome, after: seq<Event>)
    requires IsRun(Spawned(), before)
    requires Run(Spawned(), before).sending && Run(Spawned(), before).alive
    requires IsRun(Step(Run(Spawned(), before), Send(r)), after) && Take !in after && Free !in after
    ensures var s := Run(Step(Run(Spawned(), before), Send(r)), after);
            TakeStep(PollStep(s).0).1 == Handed(r)
  {
    RunKeepsInv(Spawned(), before);
    var s := Run(Spawned(), before);
    NothingInFlight(s);
    StepKeepsInv(s, Send(r));
    HeldUntilTaken(Step(s, Send(r)), r, after);
  }

  lemma {:induction false} HeldUntilTaken(s: State, r: Outcome, events: seq<Event>)
    requires !s.sending && IsRun(s, events) && Take !in events && Free !in events
    requires s.slot == Some(r) || (s.slot == None && s.channel == Some(r) && !s.drained)
    ensures var t := Run(s, events);
            t.slot == Some(r) || (t.slot == None && t.channel == Some(r) && !t.drained)
    decreases |events|
  {
    if events != [] {
      HeldUntilTaken(Step(s, events[0]), r, events[1..]);
    }
  }

  // ----- the codes of the plugin interface -----

  /** What a poll reports: 1 and -1 for results, 0 while one may come, -1 when none will. */
  lemma PollReports(s: State)
    ensures var found := if s.slot.Some? then s.slot else if s.drained then None else s.channel;
            PollStep(s).1 ==
            if found.Some? then (if found.value.Value? then 1 else -1) else if s.sending && !s.drained then 0 else -1
  {
  }
}
