/** The block's lifecycle as values: one snapshot of everything the block
    owns, and one transition function per host callback. The class in
    module SFunction is proved to follow these functions step by step. */
module Lifecycle {
  import opened Device

  /** Number of integer work slots the block reserves (WORK_INT_N). */
  const WorkIntN: nat := 1
  /** Slot of the integer work vector that holds the consecutive-error counter. */
  const WorkIntErrorCount: nat := 0
  /** Consecutive I/O failures tolerated; one more is fatal. */
  const MaxErrorCount: int := 5

  const ConnectFailedMessage: string := "Unable to connect to OPTO22 (192.168.6.101)."
  const MaxErrorMessage: string := "Max error count reached."

  /** Where the block is in its life. `Faulted` carries the error status
      handed to the host, which then stops calling the step callbacks. */
  datatype Phase = Uninitialized | Ready | Faulted(message: string) | Terminated

  /** Everything the block owns: its phase, the error counter slot, whether
      the session handle is stored, the output port value, and the commands
      it has issued to the session so far. */
  datatype BlockState = BlockState(
    phase: Phase,
    errorCount: int,
    sessionStored: bool,
    output: real,
    trace: seq<Command>)

  /** The invariant the lifecycle keeps. While Ready the counter is in
      0..MaxErrorCount; it exceeds that bound only in the fault it causes. */
  ghost predicate Inv(s: BlockState) {
    && (s.phase == Uninitialized ==> !s.sessionStored)
    && (s.phase == Ready ==> s.sessionStored && 0 <= s.errorCount <= MaxErrorCount)
    && (s.phase.Faulted? ==> s.phase.message in {ConnectFailedMessage, MaxErrorMessage})
    && (s.phase == Faulted(ConnectFailedMessage) ==> !s.sessionStored)
    && (s.phase == Faulted(MaxErrorMessage) ==> s.sessionStored && s.errorCount == MaxErrorCount + 1)
    && (s.phase == Terminated ==> !s.sessionStored)
  }

  /** Some IsOpenDone result other than "not connected yet" eventually comes:
      the runs in which the connection wait ends. */
  ghost predicate Settled(polls: seq<Status>) {
    exists i :: 0 <= i < |polls| && polls[i] != NotConnectedYet
  }

  /** Index of the IsOpenDone result that ends the connection wait. */
  function FirstSettled(polls: seq<Status>): (k: nat)
    requires Settled(polls)
    ensures k < |polls| && polls[k] != NotConnectedYet
    ensures forall j :: 0 <= j < k ==> polls[j] == NotConnectedYet
  {
    if polls[0] != NotConnectedYet then 0
    else
      var i :| 0 <= i < |polls| && polls[i] != NotConnectedYet;
      assert polls[1..][i - 1] == polls[i];
      1 + FirstSettled(polls[1..])
  }

  /** mdlStart: open the session; if that succeeds, poll until the result
      is something other than "not connected yet"; on a final OK store the
      handle and clear the counter, otherwise report the connect error. */
  function StartStep(s: BlockState, openResult: Status, polls: seq<Status>): (r: BlockState)
    requires openResult == Ok ==> Settled(polls)
    ensures r.output == s.output
    ensures r.phase == Ready || r.phase == Faulted(ConnectFailedMessage)
    ensures r.phase == Ready ==> r.sessionStored && r.errorCount == 0
    ensures r.phase != Ready ==> r.sessionStored == s.sessionStored && r.errorCount == s.errorCount
    ensures openResult != Ok ==> r.phase != Ready && r.trace == s.trace + [OpenCommand]
    ensures openResult == Ok ==>
      r.trace == s.trace + [OpenCommand] + Polls(FirstSettled(polls) + 1) &&
      (r.phase == Ready <==> polls[FirstSettled(polls)] == Ok)
    ensures Inv(s) && s.phase == Uninitialized ==> Inv(r)
  {
    if openResult != Ok then
      s.(phase := Faulted(ConnectFailedMessage), trace := s.trace + [OpenCommand])
    else
      var k := FirstSettled(polls);
      var t := s.trace + [OpenCommand] + Polls(k + 1);
      if polls[k] != Ok then s.(phase := Faulted(ConnectFailedMessage), trace := t)
      else s.(phase := Ready, sessionStored := true, errorCount := 0, trace := t)
  }

  /** mdlUpdate: write the input to the output channel. A failed write
      counts one more consecutive error and is fatal past MaxErrorCount; a
      successful write clears the counter. */
  function UpdateStep(s: BlockState, u: real, writeResult: Status): (r: BlockState)
    requires s.phase == Ready
    ensures r.trace == s.trace + [Write(OutputChannel, u)]
    ensures r.output == s.output && r.sessionStored == s.sessionStored
    ensures writeResult == Ok ==> r.phase == Ready && r.errorCount == 0
    ensures writeResult != Ok ==> r.errorCount == s.errorCount + 1
    ensures r.phase != Ready <==> writeResult != Ok && s.errorCount + 1 > MaxErrorCount
    ensures r.phase != Ready ==> r.phase == Faulted(MaxErrorMessage)
    ensures Inv(s) ==> Inv(r)
  {
    var t := s.trace + [Write(OutputChannel, u)];
    if writeResult != Ok then
      var n := s.errorCount + 1;
      if n > MaxErrorCount then s.(phase := Faulted(MaxErrorMessage), errorCount := n, trace := t)
      else s.(errorCount := n, trace := t)
    else
      s.(errorCount := 0, trace := t)
  }

  /** mdlOutputs: read the input channel. A failed read counts one more
      error and is fatal past MaxErrorCount, returning before the output is
      assigned; a failed read under the bound clears the counter; a
      successful read leaves the counter alone. On every non-fatal path the
      output takes the value the read produced. */
  function OutputsStep(s: BlockState, readResult: Status, readValue: real): (r: BlockState)
    requires s.phase == Ready
    ensures r.trace == s.trace + [Read(InputChannel)]
    ensures r.sessionStored == s.sessionStored
    ensures readResult == Ok ==> r.phase == Ready && r.errorCount == s.errorCount
    ensures readResult != Ok && s.errorCount + 1 <= MaxErrorCount ==> r.phase == Ready && r.errorCount == 0
    ensures readResult != Ok && s.errorCount + 1 > MaxErrorCount ==>
      r.phase == Faulted(MaxErrorMessage) && r.errorCount == s.errorCount + 1
    ensures r.phase == Ready ==> r.output == readValue
    ensures r.phase != Ready ==> r.output == s.output
    ensures Inv(s) ==> Inv(r)
  {
    var t := s.trace + [Read(InputChannel)];
    if readResult != Ok then
      var n := s.errorCount + 1;
      if n > MaxErrorCount then s.(phase := Faulted(MaxErrorMessage), errorCount := n, trace := t)
      else s.(errorCount := 0, output := readValue, trace := t)
    else
      s.(output := readValue, trace := t)
  }

  /** mdlTerminate: write 0.0 to the output channel, close the session and
      release the handle, whatever the counter holds. */
  function TerminateStep(s: BlockState): (r: BlockState)
    requires s.sessionStored
    ensures r.trace == s.trace + [Write(OutputChannel, 0.0), Close]
    ensures r.phase == Terminated && !r.sessionStored
    ensures r.errorCount == s.errorCount && r.output == s.output
    ensures Inv(r)
  {
    s.(phase := Terminated, sessionStored := false, trace := s.trace + [Write(OutputChannel, 0.0), Close])
  }
}
