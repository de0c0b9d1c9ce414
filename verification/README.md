# FW103H filter wheel: a Dafny model of the device adapter's control logic

This project models the control logic of the Micro-Manager device adapter for
the Thorlabs FW103H filter wheel. The wheel is driven by a Kinesis benchtop
stepper controller. The model covers three parts and two helper modules:

- **The device facade** (`ThorlabsFilterWheel`, module `FilterWheel`). This is
  the state the host sees: the serial number, the initialisation flag, the
  busy-timer start, the cached position index and the cached speed. The host
  changes it through `Initialize`, `Shutdown`, `Busy` and the `OnState`,
  `OnSpeed` and `OnSerialNumber` property handlers.
- **The device session** (the `Kinesis_API` free functions, module `Kinesis`).
  It discovers the controller by serial number, opens it, homes it, moves it,
  sets its velocity and closes it.
- **The bounded wait** (module `MessageQueue`). It polls the controller's
  completion-message queue and turns the asynchronous queue into a blocking
  call with a timeout.
- The helpers: `CStrings` models the C string routines discovery uses
  (`strtok_s`, `strncpy_s`, `strncmp`), and `Codes` holds the status codes and
  constants.

The hardware is an explicit oracle. Every vendor call becomes an input: its
return code, the device enumeration (the list-build return code, the
comma-separated serial list, and a function from token to the device's serial
number), or a finite trace of queue observations. A trace holds one entry per
poll: either the queue was empty, or it held a message, which was dequeued.
The real wait runs until it completes or times out. When the trace ends first,
the model reports `Undecided` (`Blocked` at the session and facade level),
meaning the call would still be waiting. Vendor commands are returned as a log
of `Command`s, each addressed to a serial number. This is what makes "makes no
hardware call" a checkable statement.

The wait is specified twice. `MessageQueue.Explains` states the outcome
declaratively, and `WaitForCompletion` runs the loop. `ExplainsUnique` shows
the declarative statement admits only one outcome, so the two agree on every
trace.

## Behaviour worth knowing

- **Serial number.** `OnSerialNumber` stores a new serial number whether or not
  the device is initialised (ThorlabsFW103H.cpp:327-339).
  `SerialChangeRedirectsShutdown` shows the consequence: `Shutdown` then
  closes the new serial, not the device that was opened.
- **No faulted state.** A move timeout in `OnState` only returns an error
  code: `initialized` is unchanged and later moves are still sent
  (ThorlabsFW103H.cpp:282-286, `TimeoutIsNotSticky`). A homing timeout makes
  `Initialize` return before the flag is set (ThorlabsFW103H.cpp:189-199).
- **No revert on hardware failure.** When the hardware call of `OnState` or
  `OnSpeed` fails, the property value is not reverted to the cached value
  (ThorlabsFW103H.cpp:282-285, 309-313). Only a range-validation failure
  reverts it (ThorlabsFW103H.cpp:276-280, 302-306).
- **Open failure.** `Kinesis_API::Initialize` returns success when discovery
  succeeds but `SBC_Open` fails, and then sends no home command
  (ThorlabsFW103H.cpp:398, 432).
- **Position after a move.** After a move, `Kinesis_API::SetPosition` reads
  the device position but only prints it (ThorlabsFW103H.cpp:478-479). The
  cache takes the requested index (ThorlabsFW103H.cpp:286).
- **Position after homing.** Homing during `Initialize` does not reset the
  cached position (ThorlabsFW103H.cpp:189-199).
- **Speed bound.** The speed is validated against the constant 7200,
  `g_default_maxSpeed`, not a per-device maximum (ThorlabsFW103H.cpp:302).
- **Shutdown.** `Kinesis_API::Shutdown` stops polling and closes without
  restoring any speed setting (ThorlabsFW103H.cpp:505-511).
- **Poll-time property.** There is no poll-time property.
  `ERR_POLL_CHANGE_FORBIDDEN` is defined but never returned
  (ThorlabsFW103H.h:23).
- **Timeouts.** Homing waits with the move timeout of 5000 ms
  (ThorlabsFW103H.cpp:189).

## Model

| member | source | states |
|---|---|---|
| `CStrings.CPrefix` | ThorlabsFW103H.cpp:373-375 | the serial copied into the 9-byte buffer is the longest NUL-free prefix of at most 8 characters |
| `CStrings.StrNEqualIffPrefixesEqual` | ThorlabsFW103H.cpp:379 | `strncmp(a, b, 8) == 0`, compared character by character, holds exactly when both strings agree on their first 8 characters before the terminator |
| `CStrings.CPrefixIdempotent` | ThorlabsFW103H.cpp:374-379 | comparing the copied serial again with an 8-character limit sees the same characters as the copy |
| `CStrings.TokenLength` | ThorlabsFW103H.cpp:362 | a token runs to the first comma or terminator, and none of its characters is either |
| `CStrings.Tokens` | ThorlabsFW103H.cpp:361-387 | every token `strtok_s` returns is non-empty and holds no delimiter and no terminator |
| `CStrings.TokensOfJoin` | ThorlabsFW103H.cpp:362-385 | tokenising a comma-joined list of fields, empty ones included, gives back exactly its non-empty fields, in order: empty fields are skipped and their neighbours stay separate tokens |
| `CStrings.JoinFields` | ThorlabsFW103H.cpp:358-362 | splitting a list at its commas and joining the pieces again gives back the list, and every piece of a NUL-free list is a field |
| `CStrings.TokensAreNonEmptyFields` | ThorlabsFW103H.cpp:361-385 | for any buffer, the successive `strtok_s` calls return exactly the non-empty comma-separated fields of the C string before its first NUL, in order |
| `CStrings.TokensStopAtNul` | ThorlabsFW103H.cpp:358-362 | whatever follows the first NUL in the serial-list buffer has no effect on the tokens |
| `CStrings.TokensKeepContent` | ThorlabsFW103H.cpp:362-385 | the tokens laid end to end are the list's characters without the delimiters: nothing is lost or invented |
| `Kinesis.ScanTokens` | ThorlabsFW103H.cpp:364-387 | the discovery loop's flag ends true exactly when it started true or some token's device serial matches; the loop does not stop at the first match |
| `Kinesis.DeviceFoundIff` | ThorlabsFW103H.cpp:352-388 | the device is found exactly when the list build returns 0 and some non-empty token's device serial agrees with the requested one in the first 8 characters |
| `Kinesis.Initialize` | ThorlabsFW103H.cpp:349-433 | not found ⇔ `DEVICE_NOT_CONNECTED` with no command sent; open failure gives success after only `Open`; otherwise open, poll at 200 ms, enable, clear, home, then `ERR_HOME_TIMEOUT` exactly when the wait times out; success exactly when found and either the open failed or the homing wait completed |
| `Kinesis.HomeDevice` | ThorlabsFW103H.cpp:435-441 | homing clears the queue before the home command, does not wait and reports success |
| `Kinesis.SetPosition` | ThorlabsFW103H.cpp:443-481 | the queue is cleared before the move; a nonzero move code is returned without waiting; success exactly when the move is accepted and the wait completes; `ERR_MOVE_TIMEOUT` on timeout; an accepted move sends exactly clear, move and, only on success, the position read |
| `Kinesis.SetSpeed` | ThorlabsFW103H.cpp:483-499 | speeds ≤ 0 send nothing and succeed; otherwise the velocity parameters are read and written back with the read acceleration; a read error wins over a write error; success exactly when both succeed |
| `Kinesis.Shutdown` | ThorlabsFW103H.cpp:505-511 | sends exactly `StopPolling` then `Close` to the addressed device, never opens, and always reports success |
| `Kinesis.OpenFailureReportsSuccess` | ThorlabsFW103H.cpp:398-432 | after a successful discovery, a failing open is reported as success and no homing is started |
| `Kinesis.MoveFailureSkipsWait` | ThorlabsFW103H.cpp:447-451 | a failing move command's result does not depend on the message queue at all |
| `MessageQueue.WithinBudget` | ThorlabsFW103H.cpp:418 | the counter passes the check `counter*100 > timeout` exactly while it is below `timeout/100 + 1` (none when the timeout is negative) |
| `MessageQueue.WaitFrom` | ThorlabsFW103H.cpp:411-430 | from any point of the loop, the outcome is the one the declarative statement `Explains` gives for the whole trace |
| `MessageQueue.WaitForCompletion` | ThorlabsFW103H.cpp:456-476 | the loop completes at the first message whose type is 2 or whose id is 1 if at most the sleep budget of empty polls came before it (`timeout/100 + 1`, 0 for a negative timeout); it times out at the empty poll that exceeds that budget if no completing message came first; the empty-poll counter is shared by all messages; a trace that reaches neither is undecided |
| `MessageQueue.ExplainsUnique` | ThorlabsFW103H.cpp:411-430 | the declarative statement `Explains` of the wait fixes a single outcome, so it is a complete specification of the loop |
| `MessageQueue.CompletesIff` | ThorlabsFW103H.cpp:425-429 | the wait completes exactly when some completing message comes before any other completing message and within the empty-poll budget |
| `MessageQueue.TimesOutIff` | ThorlabsFW103H.cpp:416-424 | the wait times out exactly when the queue is found empty for the budget-plus-one-th time before any completing message |
| `MessageQueue.SleepTimeBounds` | ThorlabsFW103H.cpp:462-470 | for a non-negative timeout no wait sleeps longer than the timeout plus 100 ms, and a timeout is reported after exactly `timeout/100 + 1` sleeps, never earlier |
| `MessageQueue.NonCompletingMessagesNeverTimeOut` | ThorlabsFW103H.cpp:459-476 | a trace made only of non-completing messages neither completes nor times out, however long it is |
| `MessageQueue.QueueStaysEmpty` | ThorlabsFW103H.cpp:462-470 | on an always-empty queue the wait times out on the poll after the sleep budget is spent, after exactly the sleep budget of sleeps (`timeout/100 + 1` for a non-negative timeout, 0 for a negative one) |
| `MessageQueue.DecidedIgnoresLaterPolls` | ThorlabsFW103H.cpp:413-430 | once completion or timeout is reached, later observations do not change the outcome |
| `FilterWheel.NewWheel` | ThorlabsFW103H.cpp:74-82 | a new facade is uninitialised, at position 0 with a zero busy-timer start and serial "40154488", with its speed left open |
| `FilterWheel.Initialize` | ThorlabsFW103H.cpp:107-202 | no-op with success when already initialised; otherwise the flag is set exactly when the property setup, the hardware initialisation and the status update all succeed; success ⇔ the flag is set; the busy timer restarts once name and description exist; the first failing code is returned, and a framework failure before the hardware step sends nothing, while afterwards exactly the commands of `Kinesis_API::Initialize` are sent; a device is opened only when it was found; nothing else changes |
| `FilterWheel.Busy` | ThorlabsFW103H.cpp:204-212 | the wheel is busy exactly while less than the delay has passed since the last position set or initialisation |
| `FilterWheel.Shutdown` | ThorlabsFW103H.cpp:215-224 | always succeeds and clears the flag; it closes the device for the current serial only when initialised, and sends nothing otherwise |
| `FilterWheel.OnState` | ThorlabsFW103H.cpp:256-290 | a read reports the cached index; every set restarts the busy timer; an index outside [0, 6) gives `ERR_UNKNOWN_POSITION`, reverts the property, sends nothing and keeps the cache; a valid index is sent to the hardware and cached exactly when the move is confirmed, any other code being passed through unchanged; any other action changes nothing, sends nothing and succeeds |
| `FilterWheel.OnSpeed` | ThorlabsFW103H.cpp:292-318 | a read reports the cached speed; a set outside [0, 7200] gives `ERR_INVALID_SPEED` and changes nothing; otherwise the hardware code is passed through and the speed is cached, 0 included, exactly when the hardware succeeds; any other action changes nothing, sends nothing and succeeds |
| `FilterWheel.OnSerialNumber` | ThorlabsFW103H.cpp:320-342 | a read reports the serial; a set stores the new serial whether or not the device is initialised; no command is sent |
| `FilterWheel.InitializeIdempotent` | ThorlabsFW103H.cpp:107-110 | after a successful initialisation a second one succeeds, changes nothing and sends nothing |
| `FilterWheel.ShutdownIdempotent` | ThorlabsFW103H.cpp:215-224 | a second shutdown succeeds, changes nothing and sends no command |
| `FilterWheel.InitializeThenShutdown` | ThorlabsFW103H.cpp:189-224 | a successful initialisation followed by shutdown restores the wheel except for the busy timer, and sends `Close` to the serial it was initialised with |
| `FilterWheel.SerialChangeRedirectsShutdown` | ThorlabsFW103H.cpp:327-339 | changing the serial of an initialised wheel makes the next shutdown close the new serial |
| `FilterWheel.MoveThenRead` | ThorlabsFW103H.cpp:258-286 | after a confirmed set to a valid index, reading the property reports that index |
| `FilterWheel.TimeoutIsNotSticky` | ThorlabsFW103H.cpp:282-286 | a move timeout keeps the flag and the cached position, and the next valid set is still sent to the hardware |
| `FilterWheel.BusyWindowAfterSet` | ThorlabsFW103H.cpp:266-268 | after any position set, accepted or rejected, the wheel is busy for exactly the delay |
| `FilterWheel.BusyMonotone` | ThorlabsFW103H.cpp:204-212 | once the busy window has closed, since the last position set or initialisation, it stays closed until the next set |
| `FilterWheel.ApplyKeepsConfirmedPosition` | ThorlabsFW103H.cpp:276-286 | any single host call keeps the cached position a valid index, and changes it only by a confirmed move to the new value |
| `FilterWheel.RunKeepsConfirmedPosition` | ThorlabsFW103H.cpp:276-286 | along any sequence of host calls the cached position stays a valid index, and it is either the initial one or the target of a move the hardware confirmed |

## Left out

- Host plugin scaffolding: `InitializeModuleData`, `CreateDevice`,
  `DeleteDevice`, `GetName`, the destructor, error-text registration, and
  property and label creation (ThorlabsFW103H.cpp:49-104, 112-171). This is
  framework code with no logic of its own. In `Initialize` its effect is kept
  only as three framework return codes.
- Vendor calls (`TLI_*`, `SBC_*`), `Sleep`, `printf` and `LogMessage`. These
  are foreign calls and I/O. Their results are oracle inputs, and the commands
  are recorded in the call log. Return codes the source ignores are not
  modelled: `StartPolling`, `EnableChannel`, `Home`, `ClearMessageQueue`,
  `StopPolling`, `Close`, the device-list fetch and the device-info query.
- Floating-point conversions: the step angle (ThorlabsFW103H.cpp:135), the
  scale factor and maximum angle (ThorlabsFW103H.cpp:35-37), and the move
  target (ThorlabsFW103H.cpp:447). `OnState` takes the index-to-device-units
  conversion as an uninterpreted function parameter.
- `OnPosition` and `SendCmd` (ThorlabsFW103H.cpp:231-254, 501-503).
  `OnPosition` is a debugging property: a read queries the vendor position
  counter and passes its return code through (ThorlabsFW103H.cpp:233-241),
  and a set only returns "not implemented" (ThorlabsFW103H.cpp:243-251).
  `SendCmd` is a stub. The debugging property is not part of the control
  logic.
- The 3 s settle delay and the `Sleep(100)` timing. The wait counts its sleeps
  instead. The 200 ms polling start is recorded as a command argument.
- The 100-byte truncation of the serial list (ThorlabsFW103H.cpp:358-359).
  This is a vendor buffer detail, so the list is given as a string; it may
  hold a NUL, and tokenising stops there.
- Header-only declarations with no definition (ThorlabsFW103H.h:46, 49-55,
  68): `OnPollTime`, `polltime_` and the `Kinesis_*` members. There is no
  behaviour to model.
- The device count read during discovery (ThorlabsFW103H.cpp:356). It is
  read and never used.
- The device description copied during discovery. It is only printed
  (ThorlabsFW103H.cpp:370-371, 380).
- The position read after a move. The model records only that it was read,
  because the value is only printed.
- The uninitialised initial `speed_`. It is a parameter of `NewWheel`.
- The uninitialised acceleration when the velocity read fails. The model
  writes back the oracle's acceleration value in every case.
- `Busy`: the delay is taken in whole milliseconds. The source's delay is a
  floating-point number.
- The `long` and `int` widths of position and speed values. Values outside
  the accepted ranges are rejected before any narrowing could matter.
- `MessageQueue.WaitForCompletion`, `Kinesis.Initialize`, `Kinesis.SetPosition`:
  the product `timeoutCounter * 100` (ThorlabsFW103H.cpp:418, 464) is computed
  on unbounded integers. The adapter only ever passes the 5000 ms timeout
  (ThorlabsFW103H.cpp:189, 282). For a C `int` timeout of 2147483600 or more
  the C product overflows on the last check, and the model does not reproduce
  that.
- Waits the finite observation trace does not decide. These are reported as
  `Blocked` by `Kinesis.Initialize`, `Kinesis.SetPosition` and the facade, not
  as a return code, because the real call would keep waiting for observations
  the trace does not contain.
- Message fields are taken as given. `WORD` and `DWORD` are modelled as 16-bit
  and 32-bit ranges, and the oracle supplies values already in range.
