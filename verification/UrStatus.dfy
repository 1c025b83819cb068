/** How the Universal Robots node turns three driver topics into one OperationalStatus. */
module UrStatus {
  import opened DecimalText
  import opened Messages

  datatype SafetyMode =
    | NORMAL | REDUCED | PROTECTIVE_STOP | RECOVERY | SAFEGUARD_STOP
    | SYSTEM_EMERGENCY_STOP | ROBOT_EMERGENCY_STOP | VIOLATION | FAULT
    | VALIDATE_JOINT_ID | UNDEFINED_SAFETY_MODE | AUTOMATIC_MODE_SAFEGUARD_STOP
    | SYSTEM_THREE_POSITION_ENABLING_STOP
    | OtherSafetyMode(code: Byte)

  datatype RobotMode =
    | NO_CONTROLLER | DISCONNECTED | CONFIRM_SAFETY | BOOTING | POWER_OFF | POWER_ON
    | IDLE | BACKDRIVE | RUNNING | UPDATING_FIRMWARE
    | OtherRobotMode(code: int)

  datatype RobotStatus = RobotStatus(
    robotMode: Option<RobotMode>,
    safetyMode: Option<SafetyMode>,
    programRunning: Option<bool>)
  {
    predicate Complete() { robotMode.Some? && safetyMode.Some? && programRunning.Some? }

    predicate SafetyOk() { safetyMode == Some(NORMAL) || safetyMode == Some(REDUCED) }

    /** A controller is connected in a known mode that waits for no confirmation. */
    predicate Controllable() {
      && robotMode.Some?
      && !(robotMode.value in {NO_CONTROLLER, DISCONNECTED, CONFIRM_SAFETY})
      && !robotMode.value.OtherRobotMode?
    }

    /** The robot moves under external control. */
    predicate Healthy() { SafetyOk() && robotMode == Some(RUNNING) && programRunning == Some(true) }
  }

  const NOTHING_RECEIVED := RobotStatus(None, None, None)

  function ToOperationalStatus(r: RobotStatus): (s: OperationalStatus)
    ensures s.state == UNKNOWN <==> !r.Complete()
    ensures s.state == UNKNOWN <==> r.robotMode == None || r.safetyMode == None || r.programRunning == None
    ensures s.state == ENABLED <==> r.Healthy()
    ensures s.state == ENABLED <==>
            && (r.safetyMode == Some(NORMAL) || r.safetyMode == Some(REDUCED))
            && r.robotMode == Some(RUNNING) && r.programRunning == Some(true)
    ensures s.state in {UNKNOWN, DISABLED, FAULTED, ENABLED}
    ensures r.Complete() && !r.SafetyOk() ==> s.state == FAULTED
    ensures s.state == DISABLED <==> r.Complete() && r.SafetyOk() && r.Controllable() && !r.Healthy()
    ensures s.state == DISABLED <==>
            && (r.safetyMode == Some(NORMAL) || r.safetyMode == Some(REDUCED)) && r.programRunning != None
            && (|| r.robotMode == Some(BOOTING) || r.robotMode == Some(POWER_OFF) || r.robotMode == Some(POWER_ON)
                || r.robotMode == Some(IDLE) || r.robotMode == Some(BACKDRIVE) || r.robotMode == Some(UPDATING_FIRMWARE)
                || (r.robotMode == Some(RUNNING) && r.programRunning == Some(false)))
    ensures s.message == "" <==> s.state == ENABLED || s.state == DISABLED
  {
    if !r.Complete() then
      OperationalStatus(UNKNOWN, "Waiting for robot status messages")
    else if !r.SafetyOk() then
      OperationalStatus(FAULTED, SafetyMessage(r.safetyMode.value))
    else
      match r.robotMode.value
      case NO_CONTROLLER => OperationalStatus(FAULTED, "No controller connected to robot.")
      case DISCONNECTED => OperationalStatus(FAULTED, "Robot is disconnected.")
      case CONFIRM_SAFETY => OperationalStatus(FAULTED, "Robot requires safety confirmation.")
      case RUNNING => OperationalStatus(if r.programRunning.value then ENABLED else DISABLED, "")
      case OtherRobotMode(code) => OperationalStatus(FAULTED, "Unknown robot mode: " + Decimal(code))
      case _ => OperationalStatus(DISABLED, "")
  }

  /** Why this safety mode stops the robot. */
  function SafetyMessage(m: SafetyMode): (text: string)
    requires m != NORMAL && m != REDUCED
    ensures text != ""
  {
    match m
    case PROTECTIVE_STOP => "Robot in protective stop. Call clear_faults to unlock."
    case RECOVERY => "Robot in safety recovery mode."
    case SAFEGUARD_STOP => "Safeguard stop active."
    case SYSTEM_EMERGENCY_STOP => "System emergency stop active."
    case ROBOT_EMERGENCY_STOP => "Robot emergency stop active."
    case VIOLATION => "Safety violation detected. Safety restart required."
    case FAULT => "Safety fault detected. Safety restart required."
    case VALIDATE_JOINT_ID => "Robot validating joint ID."
    case UNDEFINED_SAFETY_MODE => "Undefined safety mode."
    case AUTOMATIC_MODE_SAFEGUARD_STOP => "Automatic mode safeguard stop active."
    case SYSTEM_THREE_POSITION_ENABLING_STOP => "System three-position enabling stop active."
    case OtherSafetyMode(code) => "Unknown safety mode: " + Decimal(code)
  }
}
