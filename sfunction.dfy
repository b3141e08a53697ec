/** The S-function block itself: the host calls Start once, then Outputs
    and Update once per sample step, then Terminate. The block keeps its
    session handle in a pointer work slot, its error counter in an integer
    work vector and its result in the output port; here those are the
    fields `sessionStored`, `iwork` and `output`, and every command sent to
    the session is recorded in `trace`. Each device call's status is a
    parameter of the callback that makes it. */
module SFunction {
  import opened Device
  import opened Lifecycle

  class DCMotorBlock {
    var phase: Phase
    /** PWork[0] holds the session handle. */
    var sessionStored: bool
    /** The integer work vector; slot WorkIntErrorCount is the counter. */
    const iwork: array<int>
    /** y[0], the block's output port. */
    var output: real
    /** Commands issued to the session so far. */
    var trace: seq<Command>

    /** The block's state as a value. */
    function State(): BlockState
      reads this, iwork
      requires iwork.Length == WorkIntN
    {
      BlockState(phase, iwork[WorkIntErrorCount], sessionStored, output, trace)
    }

    ghost predicate Valid()
      reads this, iwork
    {
      iwork.Length == WorkIntN && Inv(State())
    }

    /** A block the host has sized but not started. */
    constructor ()
      ensures Valid() && fresh(iwork)
      ensures phase == Uninitialized && !sessionStored && trace == []
    {
      phase := Uninitialized;
      sessionStored := false;
      iwork := new int[WorkIntN];
      output := 0.0;
      trace := [];
    }

    /** mdlStart. `openResult` is what OpenEnet returns and `polls` the
        successive IsOpenDone results. */
    method Start(openResult: Status, polls: seq<Status>)
      requires Valid() && phase == Uninitialized
      requires openResult == Ok ==> Settled(polls)
      modifies this, iwork
      ensures Valid()
      ensures State() == StartStep(old(State()), openResult, polls)
    {
      trace := trace + [OpenCommand];
      var result := openResult;
      if result == Ok {
        result := polls[0];
        trace := trace + [PollOpen];
        var i := 1;
        while result == NotConnectedYet
          invariant 1 <= i <= FirstSettled(polls) + 1
          invariant result == polls[i - 1]
          invariant trace == old(trace) + [OpenCommand] + Polls(i)
          invariant unchanged(iwork)
          invariant phase == old(phase) && sessionStored == old(sessionStored) && output == old(output)
          decreases FirstSettled(polls) + 1 - i
        {
          result := polls[i];
          trace := trace + [PollOpen];
          i := i + 1;
        }
        // the loop stops exactly at the first settled result
        assert i - 1 == FirstSettled(polls);
      }
      if result != Ok {
        phase := Faulted(ConnectFailedMessage);
        return;
      }
      sessionStored := true;
      iwork[WorkIntErrorCount] := 0;
      phase := Ready;
    }

    /** mdlUpdate. `writeResult` is what SetAnaPtValue returns. */
    method Update(u: real, writeResult: Status)
      requires Valid() && phase == Ready
      modifies this, iwork
      ensures Valid()
      ensures State() == UpdateStep(old(State()), u, writeResult)
    {
      trace := trace + [Write(OutputChannel, u)];
      if writeResult != Ok {
        iwork[WorkIntErrorCount] := iwork[WorkIntErrorCount] + 1;
        if iwork[WorkIntErrorCount] > MaxErrorCount {
          phase := Faulted(MaxErrorMessage);
          return;
        }
      } else {
        iwork[WorkIntErrorCount] := 0;
      }
    }

    /** mdlOutputs. `readResult` is what GetAnaPtValue returns and
        `readValue` what it left in the speed variable. */
    method Outputs(readResult: Status, readValue: real)
      requires Valid() && phase == Ready
      modifies this, iwork
      ensures Valid()
      ensures State() == OutputsStep(old(State()), readResult, readValue)
    {
      trace := trace + [Read(InputChannel)];
      if readResult != Ok {
        iwork[WorkIntErrorCount] := iwork[WorkIntErrorCount] + 1;
        if iwork[WorkIntErrorCount] > MaxErrorCount {
          phase := Faulted(MaxErrorMessage);
          return;
        } else {
          iwork[WorkIntErrorCount] := 0;
        }
      }
      output := readValue;
    }

    /** mdlTerminate. The statuses of the zero write and of Close are not
        looked at. */
    method Terminate()
      requires Valid() && sessionStored
      modifies this
      ensures Valid()
      ensures State() == TerminateStep(old(State()))
    {
      trace := trace + [Write(OutputChannel, 0.0)];
      trace := trace + [Close];
      sessionStored := false;
      phase := Terminated;
    }
  }
}
