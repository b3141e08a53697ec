# SDCMotor S-function block: lifecycle and error counter

This project models the DC-motor S-function block: a plugin that a discrete-time
simulation host loads to drive a motor through a network-attached analog I/O brick.
The block has four host callbacks, and the model covers each of them:

- `mdlStart` opens a session to the brick (192.168.6.101, port 2001, timeout 10000, mode 1).
  It busy-polls `IsOpenDone` while the result is "not connected yet".
  On success it stores the session handle in its pointer work slot and clears its error counter.
  On failure it sets the connect error status.
- `mdlUpdate` writes the block input to analog channel 0.
- `mdlOutputs` reads analog channel 4 into the block output.
- `mdlTerminate` writes 0.0 to channel 0, closes the session and releases it.

The consecutive-error counter lives in slot `WORK_INT_ERROR_COUNT` (0) of the integer work vector.
A failed write or read adds one to it.
Going past `MAX_ERROR_COUNT` (5) sets the error status "Max error count reached.", and the host then stops.

The vendor session is an oracle. Each callback takes the statuses the library would return as parameters.
The commands the block issues are recorded in a trace: `Open`, `PollOpen`, `Write(ch, v)`, `Read(ch)` and `Close`.

Modules:

- `Device` (device.dfy): status codes, commands and the fixed configuration.
- `Lifecycle` (lifecycle.dfy): the block's state as a value, the invariant `Inv`, and one transition function per callback.
  Each function's contract states what the callback does.
- `SFunction` (sfunction.dfy): the class `DCMotorBlock`.
  It has the work slots, output port and trace as fields, and the callbacks as methods.
  `Start` has the polling loop.
  Each method is proved to move the object's state exactly as the matching `Lifecycle` function says, and to keep `Inv`.
- `Properties` (properties.dfy): runs of callbacks from Ready.
  It holds the counter bound, the failure-streak and reset behaviour, and the connect condition.

The read path keeps a quirk of the code. A failed read that stays within the bound clears the counter.
A successful read leaves the counter alone.
The model keeps this as written and proves its consequences:

- Starting from a counter below 5, while writes succeed, failed reads never fault (`SuccessfulWritesNeverFault`).
- Starting from a counter below 5, host steps in which both the read and the write fail never fault either.
  The counter only ever goes between 0 and 1 (`FailingTicksNeverFault`).
- At a counter of 5, which five failed writes with successful reads can reach, the next failed read takes it to 6 and faults.

Three further points about what the code does:

- Six consecutive I/O failures do not always fault.
  Only failed writes build up the count. A failed read never leaves the count higher, except the one that takes it from 5 to 6 and faults (`FailingTicksNeverFault`).
- A failed read that is not fatal still assigns the output from the read variable (SDCMotor.cpp:174).
  The output does not keep its previous value.
- Within a sample step the host calls `mdlOutputs` (the read) before `mdlUpdate` (the write).
  `Properties.Tick` and `Properties.EndToEndScenario` use this order.
  The single-callback contracts and `Run` hold for any order.

## Model

| member | source | states |
|---|---|---|
| `Lifecycle.FirstSettled` | dcmotor/src/SDCMotor.cpp:83-87 | the poll loop stops at the first `IsOpenDone` result that is not "not connected yet"; every earlier result was "not connected yet" |
| `Lifecycle.StartStep` | dcmotor/src/SDCMotor.cpp:73-100 | the block ends Ready or faulted with the connect message. Ready means the handle is stored and the counter is 0. On failure the handle and counter are untouched. The trace gains `Open` plus one `PollOpen` per poll up to the settling one. A failed `OpenEnet` issues no poll. Start keeps `Inv` |
| `Lifecycle.UpdateStep` | dcmotor/src/SDCMotor.cpp:109-137 | the only command is `Write(0, u)`. Success: counter 0 and no fault. Failure: counter + 1. Faults exactly when a failure takes the counter past 5. The output is untouched. `Inv` is kept |
| `Lifecycle.OutputsStep` | dcmotor/src/SDCMotor.cpp:145-175 | the only command is `Read(4)`. Success: counter unchanged. Failure within the bound: counter reset to 0. Failure past the bound: counter + 1 and a fault. The output is assigned the read value exactly when no fault occurs. `Inv` is kept |
| `Lifecycle.TerminateStep` | dcmotor/src/SDCMotor.cpp:183-192 | the trace gains exactly `Write(0, 0.0)` then `Close`, whatever the counter. The handle is released and the phase is Terminated |
| `SFunction.DCMotorBlock.constructor` | dcmotor/src/SDCMotor.cpp:10-11 | a fresh block has a one-slot integer work vector, no stored handle and an empty trace, and satisfies `Inv` |
| `SFunction.DCMotorBlock.Start` | dcmotor/src/SDCMotor.cpp:73-100 | the open and poll loop update the object exactly as `StartStep`, keeping `Inv` |
| `SFunction.DCMotorBlock.Update` | dcmotor/src/SDCMotor.cpp:109-137 | the in-place counter update and write match `UpdateStep` exactly, keeping `Inv` |
| `SFunction.DCMotorBlock.Outputs` | dcmotor/src/SDCMotor.cpp:145-175 | the in-place counter update, read and output assignment match `OutputsStep` exactly, keeping `Inv` |
| `SFunction.DCMotorBlock.Terminate` | dcmotor/src/SDCMotor.cpp:183-192 | the zero write, close and release match `TerminateStep` exactly |
| `Properties.Apply` | dcmotor/src/SDCMotor.cpp:121-171 | while `Inv` holds, a step callback faults if and only if its device call fails with the counter already at 5. The only fault it can raise is "Max error count reached." |
| `Properties.ConnectSucceedsIff` | dcmotor/src/SDCMotor.cpp:79-95 | Start reaches Ready if and only if `OpenEnet` returns OK and the first non-"not connected yet" `IsOpenDone` result is OK. Otherwise the connect error is set and no handle is stored. On success the counter is 0 |
| `Properties.RunStaysWithinThreshold` | dcmotor/src/SDCMotor.cpp:121-171 | over any callback sequence from Ready, the block ends either Ready with the counter in 0..5, or faulted with the counter at exactly 6 |
| `Properties.WriteFailureStreak` | dcmotor/src/SDCMotor.cpp:119-136 | failed writes with only successful reads in between raise the counter by one each. The block faults on the write that takes the counter past 5, and not before |
| `Properties.SuccessRestoresFullTolerance` | dcmotor/src/SDCMotor.cpp:132-136 | after one successful write, a new streak of failed writes is tolerated five times and faults on the sixth |
| `Properties.SuccessfulWritesNeverFault` | dcmotor/src/SDCMotor.cpp:157-172 | if every write succeeds and the counter starts below 5, no number of failed reads faults the block, and the counter never grows |
| `Properties.FailingTicksNeverFault` | dcmotor/src/SDCMotor.cpp:121-171 | starting from a counter below 5, host steps (read, then write) in which both calls fail never fault, and leave the counter at 1 |
| `Properties.EndToEndScenario` | dcmotor/src/SDCMotor.cpp:73-192 | in this run, callbacks come in host order (read, then write). The block connects on the second poll. In the first step it reads 3.2 and writes 5.0. In the second it reads 3.2 again, the write of 0.0 fails, and then it terminates. The output is 3.2 and the counter is 1. The session sees exactly the listed commands, ending with `Write(0, 0.0)` and `Close` |

## Left out

- Host registration, sizing and sample-time setup (`mdlInitializeSizes`, `mdlInitializeSampleTimes`) and the MEX/code-generation trailer are not modelled. They are fixed host interface code with no logic.
- The vendor library's internals (`OpenEnet`, `IsOpenDone`, `SetAnaPtValue`, `GetAnaPtValue`, `Close`) are not modelled. Their statuses and the read value are parameters.
- `SFunction.DCMotorBlock.Start` requires that, after a successful open, some `IsOpenDone` result eventually differs from "not connected yet". A run in which the busy-wait never ends is not modelled, because nothing in the code bounds the loop.
- Float conversions (`(float)*u`, `(real_T)velocidad`) are not modelled. Values are `real` and pass through unchanged; single-precision rounding is ignored.
- The value left in `velocidad` after a failed read is whatever the library wrote, so it is the `readValue` parameter.
- `ssPrintf` diagnostics are not modelled.
- Memory management is not modelled beyond "handle stored / released". The session object that a failed start allocates and never frees is not represented.
- The counter is an unbounded integer rather than `int_T`. `RunStaysWithinThreshold` shows it never exceeds 6, so 32-bit wrap-around cannot happen.
- Calls the host does not make are excluded by preconditions. Step callbacks require the Ready phase, because the host stops after an error status.
- Lifecycle.TerminateStep and SFunction.DCMotorBlock.Terminate require a stored handle. The host still runs `mdlTerminate` after a `mdlStart` that failed to connect. That start returns before it stores the handle, and `mdlTerminate` has no guard, so it calls `SetAnaPtValue` and `Close` through an unset handle. The model excludes this run: after a connect failure no handle is stored, and nothing can terminate the block.
- `SFunction.DCMotorBlock.constructor` leaves the counter slot's initial contents unspecified and sets the output to 0.0. `mdlStart` overwrites the counter before any use.
- The statuses returned by the zero write and by `Close` in `mdlTerminate` are ignored by the code, so they are not parameters of the model.
