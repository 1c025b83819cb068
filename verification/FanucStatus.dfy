/** How the FANUC node turns the driver's robot status into an OperationalStatus. */
module FanucStatus {
  import opened DecimalText
  import opened Messages

  datatype ContactStop = CONTACT_STOP_MODE_NONE | CONTACT_STOP_MODE_SAFE | OtherContactStop(code: Byte)

  datatype RobotStatus = RobotStatus(
    inError: bool,
    eStopped: bool,
    motionPossible: bool,
    tpEnabled: bool,
    contactStopMode: ContactStop)
  {
    predicate Healthy() {
      !eStopped && contactStopMode == CONTACT_STOP_MODE_NONE && !tpEnabled && !inError && motionPossible
    }
  }

  function ToOperationalStatus(r: Option<RobotStatus>): (s: OperationalStatus)
    ensures s.state == UNKNOWN <==> r.None?
    ensures s.state == ENABLED <==> r.Some? && r.value.Healthy()
    ensures s.state == ENABLED <==>
            && r.Some? && !r.value.eStopped && r.value.contactStopMode == CONTACT_STOP_MODE_NONE
            && !r.value.tpEnabled && !r.value.inError && r.value.motionPossible
    ensures s.state == DISABLED <==>
            r.Some? && r.value.tpEnabled && !r.value.eStopped && r.value.contactStopMode == CONTACT_STOP_MODE_NONE
    ensures s.state in {UNKNOWN, DISABLED, FAULTED, ENABLED}
    ensures s.message == "" <==> s.state == ENABLED
  {
    if r.None? then
      OperationalStatus(UNKNOWN, "Waiting for FANUC robot status messages")
    else if r.value.eStopped then
      OperationalStatus(FAULTED, "FANUC robot emergency stop is active. Release E-stop and call clear_faults.")
    else if r.value.contactStopMode != CONTACT_STOP_MODE_NONE then
      OperationalStatus(FAULTED, ContactStopMessage(r.value.contactStopMode))
    else if r.value.tpEnabled then
      OperationalStatus(DISABLED, "FANUC teach pendant is enabled (manual control mode).")
    else if r.value.inError then
      OperationalStatus(FAULTED, "FANUC robot is in error/alarm state. Call clear_faults to recover.")
    else if !r.value.motionPossible then
      OperationalStatus(FAULTED,
        "FANUC robot motion_possible is false. Call clear_faults to restore ROS 2 motion control.")
    else
      OperationalStatus(ENABLED, "")
  }

  function ContactStopMessage(mode: ContactStop): (text: string)
    requires mode != CONTACT_STOP_MODE_NONE
    ensures text != ""
  {
    match mode
    case OtherContactStop(code) =>
      "FANUC robot contact stop mode " + Decimal(code) + " active. Call clear_faults to recover."
    case CONTACT_STOP_MODE_SAFE => "FANUC robot contact stop active. Call clear_faults to recover."
  }
}
