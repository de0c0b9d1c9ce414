/** The `ThorlabsFilterWheel` device facade: the state the host sees (serial
    number, initialisation flag, busy-timer start, cached position index and
    speed) and the transitions driven by the host's lifecycle calls and
    property events.

    Every transition is a pure function of the current state and of oracle
    inputs standing for the host framework and the hardware. It returns the
    next state, the status code handed to the host, and the vendor commands
    issued on the way.
 */
module FilterWheel {
  import opened Codes
  import opened MessageQueue
  import opened Kinesis

  /** The facade's mutable members. `changedTime` is in microseconds. */
  datatype Wheel = Wheel(
    serialNumber: string,
    initialized: bool,
    changedTime: int,
    position: int,
    speed: int)

  /** A position index the wheel accepts. */
  predicate ValidIndex(pos: int) {
    0 <= pos < NumPositions
  }

  /** The invariant every transition keeps: the cached position is an index of
      the wheel. */
  predicate Valid(w: Wheel) {
    ValidIndex(w.position)
  }

  /** A freshly constructed facade. The constructor does not set the speed,
      so its initial value is a parameter. */
  function NewWheel(initialSpeed: int): (w: Wheel)
    ensures Valid(w) && !w.initialized
    ensures w.serialNumber == DefaultSerialNumber && w.speed == initialSpeed
    ensures w.position == 0 && w.changedTime == 0
  {
    Wheel(DefaultSerialNumber, false, 0, 0, initialSpeed)
  }

  /** The phase of a property event. */
  datatype ActionType = BeforeGet | AfterSet | OtherAction

  /** The result of a property handler: the next state, the status, the value
      the property holds afterwards, and the vendor commands issued. */
  datatype Handled<T> = Handled(wheel: Wheel, status: Status, property: T, calls: seq<Command>)

  /** The result of a lifecycle call. */
  datatype Outcome = Outcome(wheel: Wheel, status: Status, calls: seq<Command>)

  /** Return codes of the host framework during `Initialize`: the first failing
      code (or success) of the name and description properties, of the
      position, speed and label properties, and of the final status update. */
  datatype Framework = Framework(describeRet: int, propertiesRet: int, updateStatusRet: int)

  /** The hardware as `Initialize` observes it. */
  datatype Bench = Bench(enumeration: Enumeration, openRet: int, homePolls: seq<Poll>)

  /** What `Kinesis_API::Initialize` answers for this wheel. */
  function HardwareInit(w: Wheel, b: Bench): Reply {
    Kinesis.Initialize(w.serialNumber, MoveTimeoutMs, b.enumeration, b.openRet, b.homePolls)
  }

  /** `ThorlabsFilterWheel::Initialize`. */
  function Initialize(w: Wheel, now: int, f: Framework, b: Bench): (r: Outcome)
    ensures w.initialized ==> r == Outcome(w, Returned(DeviceOk), [])
    ensures r.wheel.initialized <==>
      w.initialized ||
      (f.describeRet == DeviceOk && f.propertiesRet == DeviceOk &&
       HardwareInit(w, b).status == Returned(DeviceOk) && f.updateStatusRet == DeviceOk)
    ensures !w.initialized ==> (r.status == Returned(DeviceOk) <==> r.wheel.initialized)
    ensures r.calls != [] ==> !w.initialized && r.calls == HardwareInit(w, b).calls
    ensures !w.initialized && f.describeRet == DeviceOk ==> r.wheel.changedTime == now
    ensures !w.initialized && f.describeRet != DeviceOk ==> r == Outcome(w, Returned(f.describeRet), [])
    ensures !w.initialized && f.describeRet == DeviceOk && f.propertiesRet != DeviceOk ==>
      r.status == Returned(f.propertiesRet) && r.calls == []
    ensures !w.initialized && f.describeRet == DeviceOk && f.propertiesRet == DeviceOk ==>
      r.calls == HardwareInit(w, b).calls
    ensures (!w.initialized && f.describeRet == DeviceOk && f.propertiesRet == DeviceOk &&
             HardwareInit(w, b).status != Returned(DeviceOk)) ==>
      r.status == HardwareInit(w, b).status
    ensures (!w.initialized && f.describeRet == DeviceOk && f.propertiesRet == DeviceOk &&
             HardwareInit(w, b).status == Returned(DeviceOk) && f.updateStatusRet != DeviceOk) ==>
      r.status == Returned(f.updateStatusRet)
    ensures Command(w.serialNumber, Open) in r.calls ==> DeviceFound(b.enumeration, w.serialNumber)
    ensures r.wheel == w.(initialized := r.wheel.initialized, changedTime := r.wheel.changedTime)
    ensures Valid(w) ==> Valid(r.wheel)
  {
    if w.initialized then Outcome(w, Returned(DeviceOk), [])
    else if f.describeRet != DeviceOk then Outcome(w, Returned(f.describeRet), [])
    else
      var timed := w.(changedTime := now);
      if f.propertiesRet != DeviceOk then Outcome(timed, Returned(f.propertiesRet), [])
      else
        var k := HardwareInit(w, b);
        if k.status != Returned(DeviceOk) then Outcome(timed, k.status, k.calls)
        else if f.updateStatusRet != DeviceOk then Outcome(timed, Returned(f.updateStatusRet), k.calls)
        else Outcome(timed.(initialized := true), Returned(DeviceOk), k.calls)
  }

  /** `ThorlabsFilterWheel::Busy`: within `delayMs` milliseconds of the last
      position set or initialisation. Times are in microseconds. */
  function Busy(w: Wheel, now: int, delayMs: int): (busy: bool)
    ensures busy <==> now < w.changedTime + delayMs * 1000
  {
    now - w.changedTime < delayMs * 1000
  }

  /** `ThorlabsFilterWheel::Shutdown`. */
  function Shutdown(w: Wheel): (r: Outcome)
    ensures r.status == Returned(DeviceOk)
    ensures r.wheel == w.(initialized := false)
    ensures w.initialized ==> r.calls == Kinesis.Shutdown(w.serialNumber).calls
    ensures !w.initialized ==> r.calls == []
  {
    if w.initialized then Outcome(w.(initialized := false), Returned(DeviceOk), Kinesis.Shutdown(w.serialNumber).calls)
    else Outcome(w, Returned(DeviceOk), [])
  }

  /** What `Kinesis_API::SetPosition` answers when moving this wheel to index
      `pos`; `toDeviceUnits` stands for the conversion of an index into the
      device-unit target. */
  function HardwareMove(w: Wheel, pos: int, toDeviceUnits: int -> int, moveRet: int, polls: seq<Poll>): Reply {
    Kinesis.SetPosition(w.serialNumber, toDeviceUnits(pos), MoveTimeoutMs, moveRet, polls)
  }

  /** `ThorlabsFilterWheel::OnState`: read or set the filter position index. */
  function OnState(w: Wheel, act: ActionType, property: int, now: int,
                   toDeviceUnits: int -> int, moveRet: int, polls: seq<Poll>): (r: Handled<int>)
    ensures act.BeforeGet? ==> r == Handled(w, Returned(DeviceOk), w.position, [])
    ensures act.AfterSet? ==> r.wheel.changedTime == now
    ensures act.AfterSet? && !ValidIndex(property) ==>
      r.status == Returned(ErrUnknownPosition) && r.property == w.position &&
      r.calls == [] && r.wheel.position == w.position
    ensures act.AfterSet? && ValidIndex(property) ==>
      r.property == property && r.calls == HardwareMove(w, property, toDeviceUnits, moveRet, polls).calls &&
      (r.status == Returned(DeviceOk) <==> moveRet == 0 && WaitForCompletion(polls, MoveTimeoutMs).Completed?)
    ensures act.AfterSet? && ValidIndex(property) && r.status != Returned(DeviceOk) ==>
      r.status == HardwareMove(w, property, toDeviceUnits, moveRet, polls).status
    ensures r.wheel.position != w.position ==>
      act.AfterSet? && r.status == Returned(DeviceOk) && r.wheel.position == property
    ensures act.AfterSet? && r.status == Returned(DeviceOk) ==> r.wheel.position == property
    ensures act.OtherAction? ==> r.wheel == w && r.status == Returned(DeviceOk) && r.calls == []
    ensures r.wheel == w.(position := r.wheel.position, changedTime := r.wheel.changedTime)
    ensures Valid(w) ==> Valid(r.wheel)
  {
    match act
    case BeforeGet => Handled(w, Returned(DeviceOk), w.position, [])
    case AfterSet =>
      var timed := w.(changedTime := now);
      if property >= NumPositions || property < 0 then
        Handled(timed, Returned(ErrUnknownPosition), w.position, [])
      else
        var k := HardwareMove(w, property, toDeviceUnits, moveRet, polls);
        if k.status != Returned(DeviceOk) then Handled(timed, k.status, property, k.calls)
        else Handled(timed.(position := property), Returned(DeviceOk), property, k.calls)
    case OtherAction => Handled(w, Returned(DeviceOk), property, [])
  }

  /** `ThorlabsFilterWheel::OnSpeed`: read or set the speed. */
  function OnSpeed(w: Wheel, act: ActionType, property: int,
                   readRet: int, acceleration: int, writeRet: int): (r: Handled<int>)
    ensures act.BeforeGet? ==> r == Handled(w, Returned(DeviceOk), w.speed, [])
    ensures act.AfterSet? && (property < 0 || property > DefaultMaxSpeed) ==>
      r == Handled(w, Returned(ErrInvalidSpeed), w.speed, [])
    ensures act.AfterSet? && 0 <= property <= DefaultMaxSpeed ==>
      r.property == property &&
      r.calls == Kinesis.SetSpeed(w.serialNumber, property, readRet, acceleration, writeRet).calls &&
      r.status == Kinesis.SetSpeed(w.serialNumber, property, readRet, acceleration, writeRet).status &&
      (r.status == Returned(DeviceOk) <==> property == 0 || (readRet == 0 && writeRet == 0))
    ensures act.AfterSet? && property == 0 ==> r.calls == [] && r.wheel.speed == 0
    ensures r.wheel.speed != w.speed ==> act.AfterSet? && r.status == Returned(DeviceOk) && r.wheel.speed == property
    ensures act.AfterSet? && r.status == Returned(DeviceOk) ==> r.wheel.speed == property
    ensures act.OtherAction? ==> r.wheel == w && r.status == Returned(DeviceOk) && r.calls == []
    ensures r.wheel == w.(speed := r.wheel.speed)
  {
    match act
    case BeforeGet => Handled(w, Returned(DeviceOk), w.speed, [])
    case AfterSet =>
      if property < 0 || property > DefaultMaxSpeed then
        Handled(w, Returned(ErrInvalidSpeed), w.speed, [])
      else
        var k := Kinesis.SetSpeed(w.serialNumber, property, readRet, acceleration, writeRet);
        if k.status != Returned(DeviceOk) then Handled(w, k.status, property, k.calls)
        else Handled(w.(speed := property), Returned(DeviceOk), property, k.calls)
    case OtherAction => Handled(w, Returned(DeviceOk), property, [])
  }

  /** `ThorlabsFilterWheel::OnSerialNumber`: read or set the serial number. A
      new value is stored whether or not the device is initialised. */
  function OnSerialNumber(w: Wheel, act: ActionType, property: string): (r: Handled<string>)
    ensures r.status == Returned(DeviceOk) && r.calls == []
    ensures act.BeforeGet? ==> r.property == w.serialNumber && r.wheel == w
    ensures act.AfterSet? ==> r.wheel == w.(serialNumber := property) && r.property == property
    ensures !act.AfterSet? ==> r.wheel == w
  {
    match act
    case BeforeGet => Handled(w, Returned(DeviceOk), w.serialNumber, [])
    case AfterSet => Handled(w.(serialNumber := property), Returned(DeviceOk), property, [])
    case OtherAction => Handled(w, Returned(DeviceOk), property, [])
  }

  /** A second `Initialize` after a successful one does nothing. */
  lemma InitializeIdempotent(w: Wheel, now1: int, now2: int, f1: Framework, f2: Framework, b1: Bench, b2: Bench)
    requires Initialize(w, now1, f1, b1).status == Returned(DeviceOk)
    ensures var w1 := Initialize(w, now1, f1, b1).wheel;
      w1.initialized && Initialize(w1, now2, f2, b2) == Outcome(w1, Returned(DeviceOk), [])
  {
  }

  /** A second `Shutdown` succeeds, changes nothing and sends no command. */
  lemma ShutdownIdempotent(w: Wheel)
    ensures var w1 := Shutdown(w).wheel;
      Shutdown(w1) == Outcome(w1, Returned(DeviceOk), [])
  {
  }

  /** A successful `Initialize` followed by `Shutdown` leaves the wheel as it
      was apart from the busy timer, and sends `Close` to the serial it was
      initialised with. */
  lemma InitializeThenShutdown(w: Wheel, now: int, f: Framework, b: Bench)
    requires !w.initialized
    requires Initialize(w, now, f, b).status == Returned(DeviceOk)
    ensures Shutdown(Initialize(w, now, f, b).wheel).wheel == w.(changedTime := now)
    ensures Command(w.serialNumber, Close) in Shutdown(Initialize(w, now, f, b).wheel).calls
  {
  }

  /** Changing the serial number of an initialised wheel redirects its later
      commands: `Shutdown` closes the new serial, not the device that was
      opened. */
  lemma SerialChangeRedirectsShutdown(w: Wheel, serial: string)
    requires w.initialized
    ensures var w1 := OnSerialNumber(w, AfterSet, serial).wheel;
      w1.initialized && w1.serialNumber == serial &&
      Shutdown(w1).calls == Kinesis.Shutdown(serial).calls
  {
  }

  /** A confirmed move is what the next read of the property reports. */
  lemma MoveThenRead(w: Wheel, pos: int, now: int, toDeviceUnits: int -> int, moveRet: int, polls: seq<Poll>, any: int)
    requires ValidIndex(pos)
    requires moveRet == 0 && WaitForCompletion(polls, MoveTimeoutMs).Completed?
    ensures var w1 := OnState(w, AfterSet, pos, now, toDeviceUnits, moveRet, polls).wheel;
      OnState(w1, BeforeGet, any, now, toDeviceUnits, moveRet, polls).property == pos
  {
  }

  /** There is no faulted state: after a move times out the wheel keeps its
      initialisation flag and position, and the next valid move is still sent
      to the hardware. */
  lemma TimeoutIsNotSticky(w: Wheel, pos1: int, pos2: int, now1: int, now2: int,
                           toDeviceUnits: int -> int, polls1: seq<Poll>, moveRet2: int, polls2: seq<Poll>)
    requires ValidIndex(pos1) && ValidIndex(pos2)
    requires WaitForCompletion(polls1, MoveTimeoutMs).TimedOut?
    ensures var r1 := OnState(w, AfterSet, pos1, now1, toDeviceUnits, 0, polls1);
      && r1.status == Returned(ErrMoveTimeout)
      && r1.wheel.initialized == w.initialized
      && r1.wheel.position == w.position
      && Command(w.serialNumber, MoveTo(toDeviceUnits(pos2))) in
           OnState(r1.wheel, AfterSet, pos2, now2, toDeviceUnits, moveRet2, polls2).calls
  {
    var r1 := OnState(w, AfterSet, pos1, now1, toDeviceUnits, 0, polls1);
    var r2 := OnState(r1.wheel, AfterSet, pos2, now2, toDeviceUnits, moveRet2, polls2);
    assert r2.calls[..2][1] == r2.calls[1];
  }

  /** A position set starts the busy window: the wheel reports busy for the
      next `delayMs` milliseconds and idle afterwards, whether or not the set
      was accepted. */
  lemma BusyWindowAfterSet(w: Wheel, pos: int, now: int, toDeviceUnits: int -> int, moveRet: int,
                           polls: seq<Poll>, elapsedUs: int, delayMs: int)
    ensures var w1 := OnState(w, AfterSet, pos, now, toDeviceUnits, moveRet, polls).wheel;
      Busy(w1, now + elapsedUs, delayMs) <==> elapsedUs < delayMs * 1000
  {
  }

  /** Once the busy window has closed it stays closed until the next set. */
  lemma BusyMonotone(w: Wheel, t1: int, t2: int, delayMs: int)
    requires t1 <= t2 && !Busy(w, t1, delayMs)
    ensures !Busy(w, t2, delayMs)
  {
  }

  /** A host call on the facade, with the oracle inputs it observes. */
  datatype Event =
    | InitializeCall(now: int, f: Framework, b: Bench)
    | ShutdownCall
    | StateEvent(act: ActionType, property: int, now: int, toDeviceUnits: int -> int, moveRet: int, polls: seq<Poll>)
    | SpeedEvent(act: ActionType, property: int, readRet: int, acceleration: int, writeRet: int)
    | SerialEvent(act: ActionType, serial: string)

  /** The state after one host call. */
  function Apply(w: Wheel, e: Event): Wheel {
    match e
    case InitializeCall(now, f, b) => Initialize(w, now, f, b).wheel
    case ShutdownCall => Shutdown(w).wheel
    case StateEvent(act, p, now, conv, mr, polls) => OnState(w, act, p, now, conv, mr, polls).wheel
    case SpeedEvent(act, p, rr, acc, wr) => OnSpeed(w, act, p, rr, acc, wr).wheel
    case SerialEvent(act, serial) => OnSerialNumber(w, act, serial).wheel
  }

  /** The state after a sequence of host calls. */
  function Run(w: Wheel, es: seq<Event>): Wheel
    decreases |es|
  {
    if |es| == 0 then w else Run(Apply(w, es[0]), es[1..])
  }

  /** A position set the hardware confirmed. */
  predicate ConfirmedMove(w: Wheel, e: Event) {
    e.StateEvent? && e.act.AfterSet? &&
    OnState(w, e.act, e.property, e.now, e.toDeviceUnits, e.moveRet, e.polls).status == Returned(DeviceOk)
  }

  /** One host call keeps the position valid and changes it only by a
      confirmed move to the new position. */
  lemma ApplyKeepsConfirmedPosition(w: Wheel, e: Event)
    requires Valid(w)
    ensures Valid(Apply(w, e))
    ensures Apply(w, e).position == w.position || (ConfirmedMove(w, e) && e.property == Apply(w, e).position)
  {
  }

  /** Along any sequence of host calls the cached position stays a valid index,
      and it is either the initial one or the target of a move the hardware
      confirmed. */
  lemma {:induction false} RunKeepsConfirmedPosition(w: Wheel, es: seq<Event>)
    requires Valid(w)
    ensures Valid(Run(w, es))
    ensures Run(w, es).position == w.position ||
      exists i :: 0 <= i < |es| && ConfirmedMove(Run(w, es[..i]), es[i]) && es[i].property == Run(w, es).position
    decreases |es|
  {
    if |es| > 0 {
      var w1 := Apply(w, es[0]);
      ApplyKeepsConfirmedPosition(w, es[0]);
      RunKeepsConfirmedPosition(w1, es[1..]);
      var final := Run(w, es);
      assert final == Run(w1, es[1..]);
      if final.position != w.position {
        if final.position == w1.position {
          assert es[..0] == [];
          assert ConfirmedMove(Run(w, es[..0]), es[0]);
        } else {
          var j :| 0 <= j < |es| - 1 && ConfirmedMove(Run(w1, es[1..][..j]), es[1..][j])
                   && es[1..][j].property == final.position;
          RunPrefix(w, es, j + 1);
          assert es[1..][..j] == es[..j + 1][1..];
          assert es[1..][j] == es[j + 1];
          assert ConfirmedMove(Run(w, es[..j + 1]), es[j + 1]);
        }
      }
    }
  }

  lemma RunPrefix(w: Wheel, es: seq<Event>, k: nat)
    requires 0 < k <= |es|
    ensures Run(w, es[..k]) == Run(Apply(w, es[0]), es[..k][1..])
  {
  }
}
