/** The `Kinesis_API` free functions: the device session that discovers the
    stepper controller by serial number, opens and homes it, moves it, sets its
    velocity and closes it.

    Vendor calls are replaced by explicit oracle inputs: their return codes,
    the device enumeration, and the queue-observation trace a wait consumes.
    The vendor commands issued are returned as a log of `Call`s, so that
    "makes no hardware call" is a statement about the result.
 */
module Kinesis {
  import opened Codes
  import opened CStrings
  import opened MessageQueue

  /** A vendor command sent to the device (channel 1 throughout). */
  datatype Call =
    | Open
    | StartPolling(intervalMs: int)
    | EnableChannel
    | ClearQueue
    | Home
    | MoveTo(deviceUnits: int)
    | ReadPosition
    | ReadVelParams
    | WriteVelParams(acceleration: int, velocity: int)
    | StopPolling
    | Close

  /** A command addressed to the device with the given serial number. */
  datatype Command = Command(device: string, call: Call)

  /** The commands `calls`, all addressed to `device`. */
  function Addressed(device: string, calls: seq<Call>): (cs: seq<Command>)
    ensures |cs| == |calls|
    ensures forall i :: 0 <= i < |cs| ==> cs[i] == Command(device, calls[i])
    decreases |calls|
  {
    if |calls| == 0 then [] else [Command(device, calls[0])] + Addressed(device, calls[1..])
  }

  /** The call returned this code, or it is still blocked in a wait loop
      because the observation trace ended before the loop finished. */
  datatype Status = Returned(code: int) | Blocked

  datatype Reply = Reply(status: Status, calls: seq<Command>)

  /** What device enumeration reports: the return code of the list build,
      the comma-separated serial list, and the serial number the device-info
      query reports for each token. */
  datatype Enumeration = Enumeration(buildListRet: int, serialList: string, serialOf: string -> string)

  /** The `strncmp(serialNo, serialNumber, 8) == 0` test, where `serialNo` is
      the device's serial copied into a 9-byte buffer. */
  predicate SerialMatches(deviceSerial: string, serialNumber: string) {
    StrNEqual(CPrefix(deviceSerial, SerialLength), serialNumber, SerialLength)
  }

  /** The discovery loop over the remaining tokens: the flag is raised by any
      match and never lowered, and the loop does not stop at a match. */
  function ScanTokens(tokens: seq<string>, serialOf: string -> string, serialNumber: string, found: bool): (r: bool)
    ensures r <==> found || exists i :: 0 <= i < |tokens| && SerialMatches(serialOf(tokens[i]), serialNumber)
    decreases |tokens|
  {
    if |tokens| == 0 then found
    else
      var r := ScanTokens(tokens[1..], serialOf, serialNumber, found || SerialMatches(serialOf(tokens[0]), serialNumber));
      assert forall i :: 1 <= i < |tokens| ==> tokens[i] == tokens[1..][i - 1];
      r
  }

  /** Whether discovery finds the device. */
  function DeviceFound(e: Enumeration, serialNumber: string): bool {
    e.buildListRet == 0 && ScanTokens(Tokens(e.serialList), e.serialOf, serialNumber, false)
  }

  /** Discovery succeeds exactly when the list build succeeds and some
      non-empty token names a device whose serial agrees with `serialNumber`
      in its first eight characters. */
  lemma DeviceFoundIff(e: Enumeration, serialNumber: string)
    ensures DeviceFound(e, serialNumber) <==>
      e.buildListRet == 0 &&
      exists t :: t in Tokens(e.serialList) &&
        CPrefix(e.serialOf(t), SerialLength) == CPrefix(serialNumber, SerialLength)
  {
    var ts := Tokens(e.serialList);
    forall t | t in ts
      ensures SerialMatches(e.serialOf(t), serialNumber) <==>
              CPrefix(e.serialOf(t), SerialLength) == CPrefix(serialNumber, SerialLength)
    {
      StrNEqualIffPrefixesEqual(CPrefix(e.serialOf(t), SerialLength), serialNumber, SerialLength);
      CPrefixIdempotent(e.serialOf(t), SerialLength);
    }
    if DeviceFound(e, serialNumber) {
      var i :| 0 <= i < |ts| && SerialMatches(e.serialOf(ts[i]), serialNumber);
      assert ts[i] in ts;
    }
  }

  /** Maps a finished wait to the code the caller sees. */
  function WaitStatus(w: Wait, timeoutCode: int): Status {
    match w
    case Completed(_, _) => Returned(DeviceOk)
    case TimedOut(_, _) => Returned(timeoutCode)
    case Undecided(_) => Blocked
  }

  /** `Kinesis_API::Home`: clears stale messages, then starts homing; it does
      not wait and always succeeds. */
  function HomeDevice(serialNumber: string): (r: Reply)
    ensures r.status == Returned(DeviceOk)
    ensures |r.calls| == 2 && r.calls[0] == Command(serialNumber, ClearQueue)
    ensures r.calls[1] == Command(serialNumber, Home)
  {
    Reply(Returned(DeviceOk), Addressed(serialNumber, [ClearQueue, Home]))
  }

  /** The commands `Kinesis_API::Initialize` sends once the device is open. */
  function OpenedCalls(serialNumber: string): seq<Command> {
    Addressed(serialNumber, [Open, StartPolling(DevicePollingMs), EnableChannel]) + HomeDevice(serialNumber).calls
  }

  /** `Kinesis_API::Initialize`: discovery, open, start polling, enable the
      channel, home, and wait for the homing to complete. */
  function Initialize(serialNumber: string, timeout: int, e: Enumeration, openRet: int, polls: seq<Poll>): (r: Reply)
    ensures !DeviceFound(e, serialNumber) <==> r == Reply(Returned(DeviceNotConnected), [])
    ensures DeviceFound(e, serialNumber) && openRet != 0 ==>
      r == Reply(Returned(DeviceOk), [Command(serialNumber, Open)])
    ensures DeviceFound(e, serialNumber) && openRet == 0 ==> r.calls == OpenedCalls(serialNumber)
    ensures r.status == Returned(DeviceOk) <==>
      DeviceFound(e, serialNumber) && (openRet != 0 || WaitForCompletion(polls, timeout).Completed?)
    ensures r.status == Returned(ErrHomeTimeout) <==>
      DeviceFound(e, serialNumber) && openRet == 0 && WaitForCompletion(polls, timeout).TimedOut?
    ensures r.status == Blocked <==>
      DeviceFound(e, serialNumber) && openRet == 0 && WaitForCompletion(polls, timeout).Undecided?
  {
    if !DeviceFound(e, serialNumber) then Reply(Returned(DeviceNotConnected), [])
    else if openRet != 0 then Reply(Returned(DeviceOk), [Command(serialNumber, Open)])
    else Reply(WaitStatus(WaitForCompletion(polls, timeout), ErrHomeTimeout), OpenedCalls(serialNumber))
  }

  /** `Kinesis_API::SetPosition`: clears stale messages, commands the absolute
      move, and waits for it; on completion it reads the position back. */
  function SetPosition(serialNumber: string, target: int, timeout: int, moveRet: int, polls: seq<Poll>): (r: Reply)
    ensures |r.calls| >= 2 && r.calls[..2] == Addressed(serialNumber, [ClearQueue, MoveTo(target)])
    ensures moveRet != 0 ==> r == Reply(Returned(moveRet), Addressed(serialNumber, [ClearQueue, MoveTo(target)]))
    ensures r.status == Returned(DeviceOk) <==> moveRet == 0 && WaitForCompletion(polls, timeout).Completed?
    ensures moveRet == 0 && WaitForCompletion(polls, timeout).TimedOut? ==> r.status == Returned(ErrMoveTimeout)
    ensures r.status == Blocked <==> moveRet == 0 && WaitForCompletion(polls, timeout).Undecided?
    ensures Command(serialNumber, ReadPosition) in r.calls <==> r.status == Returned(DeviceOk)
    ensures moveRet == 0 ==> r.calls == Addressed(serialNumber, [ClearQueue, MoveTo(target)] +
      (if WaitForCompletion(polls, timeout).Completed? then [ReadPosition] else []))
  {
    var moved := [ClearQueue, MoveTo(target)];
    if moveRet != 0 then Reply(Returned(moveRet), Addressed(serialNumber, moved))
    else
      var w := WaitForCompletion(polls, timeout);
      if w.Completed? then
        var cs := Addressed(serialNumber, moved + [ReadPosition]);
        assert cs[2] == Command(serialNumber, ReadPosition);
        Reply(Returned(DeviceOk), cs)
      else Reply(WaitStatus(w, ErrMoveTimeout), Addressed(serialNumber, moved))
  }

  /** `Kinesis_API::SetSpeed`: a positive speed reads the velocity parameters
      and writes back the acceleration read with the new velocity, whether or
      not the read succeeded; a read failure is reported before a write
      failure. Zero and negative speeds touch nothing. */
  function SetSpeed(serialNumber: string, speed: int, readRet: int, acceleration: int, writeRet: int): (r: Reply)
    ensures speed <= 0 ==> r == Reply(Returned(DeviceOk), [])
    ensures speed > 0 ==> r.calls == Addressed(serialNumber, [ReadVelParams, WriteVelParams(acceleration, speed)])
    ensures r.status.Returned?
    ensures speed > 0 && readRet != 0 ==> r.status.code == readRet
    ensures r.status.code == DeviceOk <==> speed <= 0 || (readRet == 0 && writeRet == 0)
    ensures r.status.code != DeviceOk ==> r.status.code == readRet || r.status.code == writeRet
  {
    if speed > 0 then
      var calls := Addressed(serialNumber, [ReadVelParams, WriteVelParams(acceleration, speed)]);
      if readRet != 0 then Reply(Returned(readRet), calls)
      else if writeRet != 0 then Reply(Returned(writeRet), calls)
      else Reply(Returned(DeviceOk), calls)
    else Reply(Returned(DeviceOk), [])
  }

  /** `Kinesis_API::Shutdown`: stops polling, then closes; vendor results are
      ignored and the call always succeeds. */
  function Shutdown(serialNumber: string): (r: Reply)
    ensures r.status == Returned(DeviceOk)
    ensures |r.calls| == 2 && r.calls[0] == Command(serialNumber, StopPolling)
    ensures r.calls[1] == Command(serialNumber, Close)
  {
    Reply(Returned(DeviceOk), Addressed(serialNumber, [StopPolling, Close]))
  }

  /** Once discovery has succeeded, a failing open is reported as success. */
  lemma OpenFailureReportsSuccess(serialNumber: string, timeout: int, e: Enumeration, openRet: int, polls: seq<Poll>)
    requires DeviceFound(e, serialNumber) && openRet != 0
    ensures Initialize(serialNumber, timeout, e, openRet, polls).status == Returned(DeviceOk)
    ensures Command(serialNumber, Home) !in Initialize(serialNumber, timeout, e, openRet, polls).calls
  {
  }

  /** A failing move command is passed through without waiting: the outcome
      does not depend on what the queue would have shown. */
  lemma MoveFailureSkipsWait(serialNumber: string, target: int, timeout: int, moveRet: int, polls1: seq<Poll>, polls2: seq<Poll>)
    requires moveRet != 0
    ensures SetPosition(serialNumber, target, timeout, moveRet, polls1) ==
            SetPosition(serialNumber, target, timeout, moveRet, polls2)
  {
  }
}
