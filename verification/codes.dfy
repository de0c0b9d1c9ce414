/** Status codes and fixed configuration of the FW103H filter-wheel adapter.

    Every operation of the adapter returns an integer status code to the host:
    zero for success, one of the adapter's own codes for a validation or
    timeout failure, or a raw vendor return code passed through unchanged.
 */
module Codes {

  /** The host framework's success code. */
  const DeviceOk: int := 0

  /** The host framework's "device not connected" code (MMDeviceConstants.h). */
  const DeviceNotConnected: int := 35

  /** The adapter's own error codes. */
  const ErrUnknownPosition: int := 100
  const ErrInvalidSpeed: int := 101
  const ErrMoveTimeout: int := 102
  const ErrHomeTimeout: int := 103
  const ErrPollChangeForbidden: int := 104

  /** Upper bound accepted by the speed property. */
  const DefaultMaxSpeed: int := 7200

  /** Timeout in milliseconds used both for homing and for moves. */
  const MoveTimeoutMs: int := 5000

  /** Sleep between two polls of an empty message queue, in milliseconds. */
  const PollStepMs: int := 100

  /** Interval at which the vendor driver is told to poll the device. */
  const DevicePollingMs: int := 200

  /** Number of filter positions on the wheel. */
  const NumPositions: int := 6

  /** Significant characters of a serial number. */
  const SerialLength: nat := 8

  /** Serial number the facade is constructed with. */
  const DefaultSerialNumber: string := "40154488"

  /** A queued message ends a wait when its type or its id has this value. */
  const CompletionType: int := 2
  const CompletionId: int := 1
}
