/** Properties of the block over whole runs: the host's callbacks after a
    successful start, as a sequence of events applied while the block is
    Ready (the host stops calling once an error status is set). */
module Properties {
  import opened Device
  import opened Lifecycle

  /** One step callback with the status the device gives it. */
  datatype Event =
    | Outputs(status: Status, value: real)   // mdlOutputs: read status and value
    | Update(input: real, status: Status)    // mdlUpdate: input and write status

  /** One host sample step: mdlOutputs, then mdlUpdate. */
  datatype Tick = Tick(readStatus: Status, readValue: real, input: real, writeStatus: Status)

  function TickEvents(ticks: seq<Tick>): seq<Event> {
    if ticks == [] then []
    else
      [Outputs(ticks[0].readStatus, ticks[0].readValue), Update(ticks[0].input, ticks[0].writeStatus)]
      + TickEvents(ticks[1..])
  }

  /** One callback. While the invariant holds, a callback faults exactly
      when its device call fails with the counter already at MaxErrorCount. */
  function Apply(s: BlockState, e: Event): (r: BlockState)
    requires s.phase == Ready
    ensures Inv(s) ==> Inv(r)
    ensures Inv(s) ==> (r.phase != Ready <==> e.status != Ok && s.errorCount == MaxErrorCount)
    ensures r.phase != Ready ==> r.phase == Faulted(MaxErrorMessage)
  {
    match e
    case Outputs(status, value) => OutputsStep(s, status, value)
    case Update(input, status) => UpdateStep(s, input, status)
  }

  /** The callbacks applied in order until the block leaves Ready. */
  function Run(s: BlockState, events: seq<Event>): BlockState
    decreases |events|
  {
    if events == [] || s.phase != Ready then s
    else Run(Apply(s, events[0]), events[1..])
  }

  /** Number of write callbacks among the events. */
  function Updates(events: seq<Event>): nat {
    if events == [] then 0
    else (if events[0].Update? then 1 else 0) + Updates(events[1..])
  }

  /** Start succeeds exactly when OpenEnet returns OK and the first
      IsOpenDone result other than "not connected yet" is OK; otherwise the
      connect error is reported and no handle is stored. */
  lemma ConnectSucceedsIff(s: BlockState, openResult: Status, polls: seq<Status>)
    requires openResult == Ok ==> Settled(polls)
    requires Inv(s) && s.phase == Uninitialized
    ensures var r := StartStep(s, openResult, polls);
      (r.phase == Ready <==>
         openResult == Ok &&
         exists k :: 0 <= k < |polls| && polls[k] == Ok &&
                     forall j :: 0 <= j < k ==> polls[j] == NotConnectedYet)
      && (r.phase != Ready ==> r.phase == Faulted(ConnectFailedMessage) && !r.sessionStored)
      && (r.phase == Ready ==> r.sessionStored && r.errorCount == 0)
  {
  }

  /** Over any run from Ready: the invariant holds throughout, the block
      ends Ready with the counter in 0..MaxErrorCount or faulted with the
      counter at MaxErrorCount + 1, and no other phase is reachable. */
  lemma {:induction false} RunStaysWithinThreshold(s: BlockState, events: seq<Event>)
    requires s.phase == Ready && Inv(s)
    ensures var r := Run(s, events);
      Inv(r) &&
      ((r.phase == Ready && 0 <= r.errorCount <= MaxErrorCount) ||
       (r.phase == Faulted(MaxErrorMessage) && r.errorCount == MaxErrorCount + 1))
    decreases |events|
  {
    if events != [] {
      var next := Apply(s, events[0]);
      if next.phase == Ready {
        RunStaysWithinThreshold(next, events[1..]);
      }
    }
  }

  /** A streak of failed writes, with every read in between succeeding,
      adds one to the counter per write and faults on the write that takes
      it past MaxErrorCount, not before. */
  lemma {:induction false} WriteFailureStreak(s: BlockState, events: seq<Event>)
    requires s.phase == Ready && Inv(s)
    requires forall i :: 0 <= i < |events| ==>
      (if events[i].Update? then events[i].status != Ok else events[i].status == Ok)
    ensures var r := Run(s, events);
      if s.errorCount + Updates(events) <= MaxErrorCount
      then r.phase == Ready && r.errorCount == s.errorCount + Updates(events)
      else r.phase == Faulted(MaxErrorMessage) && r.errorCount == MaxErrorCount + 1
    decreases |events|
  {
    if events != [] {
      var next := Apply(s, events[0]);
      if next.phase == Ready {
        WriteFailureStreak(next, events[1..]);
      }
    }
  }

  /** After a successful write the counter is 0 again, so a following
      streak of failed writes is tolerated five times and faults on the
      sixth, however long the streak before the success was. */
  lemma SuccessRestoresFullTolerance(s: BlockState, u: real, streak: seq<Event>)
    requires s.phase == Ready && Inv(s)
    requires forall i :: 0 <= i < |streak| ==>
      (if streak[i].Update? then streak[i].status != Ok else streak[i].status == Ok)
    ensures var r := Run(s, [Update(u, Ok)] + streak);
      (Updates(streak) <= MaxErrorCount ==> r.phase == Ready && r.errorCount == Updates(streak)) &&
      (Updates(streak) > MaxErrorCount ==> r.phase == Faulted(MaxErrorMessage))
  {
    var events := [Update(u, Ok)] + streak;
    assert events[1..] == streak;
    WriteFailureStreak(UpdateStep(s, u, Ok), streak);
  }

  /** A failed read under the bound clears the counter, so as long as every
      write succeeds the block never faults, however many reads fail. */
  lemma {:induction false} SuccessfulWritesNeverFault(s: BlockState, events: seq<Event>)
    requires s.phase == Ready && 0 <= s.errorCount < MaxErrorCount
    requires forall i :: 0 <= i < |events| ==> events[i].Update? ==> events[i].status == Ok
    ensures Run(s, events).phase == Ready
    ensures Run(s, events).errorCount <= s.errorCount
    decreases |events|
  {
    if events != [] {
      SuccessfulWritesNeverFault(Apply(s, events[0]), events[1..]);
    }
  }

  /** Host steps in which both the read and the write fail never fault:
      each failed read clears the counter and each failed write sets it to
      one, so it never gets past one. */
  lemma {:induction false} FailingTicksNeverFault(s: BlockState, ticks: seq<Tick>)
    requires s.phase == Ready && 0 <= s.errorCount < MaxErrorCount
    requires forall i :: 0 <= i < |ticks| ==> ticks[i].readStatus != Ok && ticks[i].writeStatus != Ok
    ensures Run(s, TickEvents(ticks)).phase == Ready
    ensures ticks != [] ==> Run(s, TickEvents(ticks)).errorCount == 1
    decreases |ticks|
  {
    if ticks != [] {
      var t := ticks[0];
      var events := TickEvents(ticks);
      var afterRead := OutputsStep(s, t.readStatus, t.readValue);
      var afterWrite := UpdateStep(afterRead, t.input, t.writeStatus);
      assert events[0] == Outputs(t.readStatus, t.readValue);
      assert events[1..][0] == Update(t.input, t.writeStatus);
      assert events[1..][1..] == TickEvents(ticks[1..]);
      assert Run(s, events) == Run(afterWrite, TickEvents(ticks[1..]));
      FailingTicksNeverFault(afterWrite, ticks[1..]);
    }
  }

  /** Two host steps, in host order, and a shutdown. The block connects on
      the second poll. Step one reads 3.2 and writes 5.0. Step two reads 3.2
      and fails to write 0.0. Then the block terminates. The output is 3.2,
      the counter is 1, and the session sees exactly these commands, ending
      in the zero write and Close. */
  lemma EndToEndScenario()
    ensures
      var s0 := BlockState(Uninitialized, 0, false, 0.0, []);
      var polls := [NotConnectedYet, Ok];
      assert polls[1] != NotConnectedYet;
      var s1 := StartStep(s0, Ok, polls);
      s1.phase == Ready &&
      var s2 := OutputsStep(s1, Ok, 3.2);
      var s3 := UpdateStep(s2, 5.0, Ok);
      var s4 := OutputsStep(s3, Ok, 3.2);
      var s5 := UpdateStep(s4, 0.0, Error(-1));
      s5.phase == Ready && s5.output == 3.2 && s5.errorCount == 1 &&
      var s6 := TerminateStep(s5);
      s6.trace == [OpenCommand, PollOpen, PollOpen, Read(4), Write(0, 5.0), Read(4),
                   Write(0, 0.0), Write(0, 0.0), Close]
  {
  }
}
