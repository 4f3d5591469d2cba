/** The records exchanged through the physics-backend interface: the telemetry
    the simulator reports and the control signal sent to it. */
module Physics {

  /** One step of vehicle state: a timestamp (s), body-frame gyro (rad/s) and
      accelerometer (m/s/s), Earth-frame position and velocity, and the
      attitude quaternion (w, x, y, z). */
  datatype Telemetry = Telemetry(
    timestamp: real,
    gyro: seq<real>,
    accel: seq<real>,
    position: seq<real>,
    velocity: seq<real>,
    quaternion: seq<real>)

  /** The fixed array sizes of the telemetry record. */
  predicate Complete(t: Telemetry)
  {
    |t.gyro| == 3 && |t.accel| == 3 && |t.position| == 3 && |t.velocity| == 3 && |t.quaternion| == 4
  }

  /** The sixteen actuator channels. Each entry is the actuator value in
      [-1, 1] already scaled by 500 and rounded to an integer. */
  datatype Control = Control(pwm: seq<int>)

  /** Number of actuator channels in a control signal. */
  const CONTROL_CHANNELS: nat := 16

  /** A control signal carries exactly one value per channel. */
  predicate ValidControl(c: Control)
  {
    |c.pwm| == CONTROL_CHANNELS
  }

  /** The state every backend starts in. */
  const INITIAL_FRAME_RATE: real := 50.0
  const INITIAL_FRAME_COUNT: nat := 0
  const INITIAL_STATUS: int := 0
}
