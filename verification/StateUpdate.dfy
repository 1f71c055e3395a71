/**
 Filling the state message from what the controller reports about the arm.
 */
module StateUpdate {
  import opened Wire
  import opened Val3Codec

  /** What the controller's own functions return during one cycle. */
  datatype Reading = Reading(powered: bool, settled: bool, esStatus: byte, workingMode: byte, robotStatus: byte,
                             positions: Vec6, speeds: Vec6, torques: Vec6)

  const INIT_STATE := Val3State(false, 0, 0, false, Arm(0, 0, 0, false, false, false, false, false, false),
                                Joints(false, false, false, false, false, false, ZERO6, ZERO6, ZERO6, ZERO6))

  function ArmOf(r: Reading): Arm {
    Arm(r.esStatus, r.workingMode, r.robotStatus, r.powered, r.powered, r.powered && r.esStatus == 0, !r.settled,
        r.esStatus == 1, r.esStatus != 0)
  }

  function JointsOf(r: Reading): Joints {
    Joints(true, true, true, false, false, false, r.positions, r.speeds, r.torques, ZERO6)
  }

  /** The in-error bit, delay and control mode are left as they were: the caller fills them. */
  function UpdateState(state: Val3State, r: Reading): Val3State {
    state.(isValid := true, arm := ArmOf(r), joints := JointsOf(r))
  }

  method UpdateArm(x_arm: Arm, r: Reading) returns (arm: Arm)
    ensures arm == ArmOf(r)
    ensures arm.motionPossible ==> arm.drivePowered && arm.safetyStatus == 0
  {
    arm := x_arm.(drivePowered := r.powered);
    arm := arm.(brakeReleased := arm.drivePowered);
    arm := arm.(inMotion := !r.settled);
    arm := arm.(safetyStatus := r.esStatus);
    arm := arm.(eStopped := arm.safetyStatus != 0);
    arm := arm.(waitAck := arm.safetyStatus == 1);
    arm := arm.(robotMode := r.workingMode, robotStatus := r.robotStatus);
    arm := arm.(motionPossible := arm.drivePowered && !arm.eStopped);
  }

  method UpdateJoints(x_joints: Joints, r: Reading) returns (joints: Joints)
    ensures joints == JointsOf(r)
  {
    joints := x_joints.(validPosition := true, validVelocity := true, validTorque := true);
    joints := joints.(positions := r.positions);
    joints := joints.(velocities := r.speeds);
    joints := joints.(torques := r.torques);
    joints := joints.(validFtSensor := false);
    joints := joints.(ftSensor := ZERO6);
    joints := joints.(validDigitalInputs := false, validAnalogInputs := false);
  }

  /** The state structure is passed by reference; its old value comes in and its new value goes out. */
  method UpdateStateInPlace(x_state: Val3State, r: Reading) returns (state: Val3State)
    ensures state == UpdateState(x_state, r)
  {
    state := x_state.(isValid := false);
    var arm := UpdateArm(state.arm, r);
    var joints := UpdateJoints(state.joints, r);
    state := state.(arm := arm, joints := joints, isValid := true);
  }
}
