/** The vendor I/O session as the block sees it: the status codes its calls
    return, the commands the block issues, and the fixed configuration the
    block opens the session with. The session itself is an oracle: every
    status it would return is supplied to the model as a parameter. */
module Device {

  /** Result of a session call: SIOMM_OK, SIOMM_ERROR_NOT_CONNECTED_YET,
      or any other error code of the library. `Error(code)` stands only for
      codes other than those two, which have their own constructors. */
  datatype Status = Ok | NotConnectedYet | Error(code: int)

  /** A command sent to the session, in the order the block issues them. */
  datatype Command =
    | Open(address: string, port: int, timeout: int, mode: int)  // OpenEnet
    | PollOpen                                                   // IsOpenDone
    | Write(channel: nat, value: real)                           // SetAnaPtValue
    | Read(channel: nat)                                         // GetAnaPtValue
    | Close                                                      // Close

  const Address: string := "192.168.6.101"
  const Port: int := 2001
  const TimeoutMs: int := 10000
  const Mode: int := 1

  /** Analog point the commanded voltage is written to. */
  const OutputChannel: nat := 0
  /** Analog point the measured speed is read from. */
  const InputChannel: nat := 4

  const OpenCommand: Command := Open(Address, Port, TimeoutMs, Mode)

  /** `n` consecutive IsOpenDone queries. */
  function Polls(n: nat): (r: seq<Command>)
    ensures |r| == n
    ensures forall i :: 0 <= i < n ==> r[i] == PollOpen
  {
    if n == 0 then [] else Polls(n - 1) + [PollOpen]
  }
}
