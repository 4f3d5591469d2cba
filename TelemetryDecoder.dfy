/** Validation of a parsed telemetry message. Every check is strict: a field
    that is missing, of the wrong kind or of the wrong length rejects the whole
    message, and a record is produced only when every field is present. */
module TelemetryDecoder {
  import opened Wrappers
  import opened Json
  import opened Physics

  /** `field` of `j` holds a number. */
  predicate IsNumberField(j: Json, field: string)
  {
    Contains(j, field) && Member(j, field).Number?
  }

  /** `field` of `j` holds an array of exactly `len` numbers. */
  predicate IsNumberArrayField(j: Json, field: string, len: nat)
  {
    && Contains(j, field)
    && Member(j, field).Array?
    && |Member(j, field).elems| == len
    && forall i :: 0 <= i < len ==> Member(j, field).elems[i].Number?
  }

  /** `field` of `j` holds an object. */
  predicate IsObjectField(j: Json, field: string)
  {
    Contains(j, field) && Member(j, field).Object?
  }

  /** The numbers held by an all-number array, in order. */
  function Numbers(arr: seq<Json>): (r: seq<real>)
    requires forall i :: 0 <= i < |arr| ==> arr[i].Number?
    ensures |r| == |arr|
    ensures forall i :: 0 <= i < |arr| ==> arr[i] == Number(r[i])
  {
    seq(|arr|, i requires 0 <= i < |arr| => arr[i].num)
  }

  /** An all-number array determines its numbers. */
  lemma NumbersAre(arr: seq<Json>, vs: seq<real>)
    requires |arr| == |vs| && forall i :: 0 <= i < |arr| ==> arr[i] == Number(vs[i])
    ensures Numbers(arr) == vs
  {
  }

  function GetNumber(j: Json, field: string): Option<real>
  {
    if IsNumberField(j, field) then Some(Member(j, field).num) else None
  }

  function GetNumbers(j: Json, field: string, len: nat): Option<seq<real>>
  {
    if IsNumberArrayField(j, field, len) then Some(Numbers(Member(j, field).elems)) else None
  }

  /** The validation chain, check by check in the order the backend runs it;
      the first failing check rejects the message. */
  function DecodeTelemetry(msg: Json): (r: Option<Telemetry>)
    ensures r.Some? ==> Complete(r.value)
  {
    var timestamp :- GetNumber(msg, "timestamp");
    if !IsObjectField(msg, "imu") then None
    else
      var imu := Member(msg, "imu");
      var accel :- GetNumbers(imu, "accel_body", 3);
      var gyro :- GetNumbers(imu, "gyro", 3);
      var position :- GetNumbers(msg, "position", 3);
      var velocity :- GetNumbers(msg, "velocity", 3);
      var quaternion :- GetNumbers(msg, "quaternion", 4);
      Some(Telemetry(timestamp, gyro, accel, position, velocity, quaternion))
  }

  /** The telemetry schema as one condition on the message. */
  predicate ValidTelemetry(msg: Json)
  {
    && IsNumberField(msg, "timestamp")
    && IsObjectField(msg, "imu")
    && IsNumberArrayField(Member(msg, "imu"), "accel_body", 3)
    && IsNumberArrayField(Member(msg, "imu"), "gyro", 3)
    && IsNumberArrayField(msg, "position", 3)
    && IsNumberArrayField(msg, "velocity", 3)
    && IsNumberArrayField(msg, "quaternion", 4)
  }

  /** `vs` are exactly the numbers of array field `field` of `j`. */
  predicate CopiedFrom(vs: seq<real>, j: Json, field: string)
    requires Contains(j, field) && Member(j, field).Array?
  {
    |vs| == |Member(j, field).elems| &&
    forall i :: 0 <= i < |vs| ==> Member(j, field).elems[i] == Number(vs[i])
  }

  /** A record is produced exactly when the message satisfies the schema, and
      then every field of the record is the number found in the message. */
  lemma DecodeTelemetrySound(msg: Json)
    ensures DecodeTelemetry(msg).Some? <==> ValidTelemetry(msg)
    ensures DecodeTelemetry(msg).Some? ==>
              var t := DecodeTelemetry(msg).value;
              var imu := Member(msg, "imu");
              && Member(msg, "timestamp") == Number(t.timestamp)
              && CopiedFrom(t.accel, imu, "accel_body")
              && CopiedFrom(t.gyro, imu, "gyro")
              && CopiedFrom(t.position, msg, "position")
              && CopiedFrom(t.velocity, msg, "velocity")
              && CopiedFrom(t.quaternion, msg, "quaternion")
  {
  }

  /** A message without an `imu` object is rejected. */
  lemma RejectsMissingImu(msg: Json)
    requires !IsObjectField(msg, "imu")
    ensures DecodeTelemetry(msg) == None
  {
  }

  /** An array of the wrong length is rejected, never truncated or padded. */
  lemma RejectsWrongLength(msg: Json, field: string)
    requires field in {"position", "velocity", "quaternion"}
    requires Contains(msg, field) && Member(msg, field).Array?
    requires |Member(msg, field).elems| != (if field == "quaternion" then 4 else 3)
    ensures DecodeTelemetry(msg) == None
  {
  }

  /** The reply of a well-behaved simulator decodes to exactly its numbers. */
  lemma DecodesSampleReply(msg: Json)
    requires msg == Object(map[
      "timestamp" := Number(0.1),
      "imu" := Object(map[
        "accel_body" := Array([Number(1.0), Number(2.0), Number(3.0)]),
        "gyro" := Array([Number(-1.0), Number(-2.0), Number(-3.0)])]),
      "position" := Array([Number(100.0), Number(1000.0), Number(-500.0)]),
      "velocity" := Array([Number(1.0), Number(10.0), Number(-5.0)]),
      "quaternion" := Array([Number(1.0), Number(0.12), Number(0.34), Number(0.56)])])
    ensures DecodeTelemetry(msg)
            == Some(Telemetry(0.1, [-1.0, -2.0, -3.0], [1.0, 2.0, 3.0],
                              [100.0, 1000.0, -500.0], [1.0, 10.0, -5.0], [1.0, 0.12, 0.34, 0.56]))
  {
    var imu := Member(msg, "imu");
    NumbersAre(Member(imu, "accel_body").elems, [1.0, 2.0, 3.0]);
    NumbersAre(Member(imu, "gyro").elems, [-1.0, -2.0, -3.0]);
    NumbersAre(Member(msg, "position").elems, [100.0, 1000.0, -500.0]);
    NumbersAre(Member(msg, "velocity").elems, [1.0, 10.0, -5.0]);
    NumbersAre(Member(msg, "quaternion").elems, [1.0, 0.12, 0.34, 0.56]);
    assert GetNumber(msg, "timestamp") == Some(0.1);
    assert GetNumbers(imu, "accel_body", 3) == Some([1.0, 2.0, 3.0]);
    assert GetNumbers(imu, "gyro", 3) == Some([-1.0, -2.0, -3.0]);
    assert GetNumbers(msg, "position", 3) == Some([100.0, 1000.0, -500.0]);
    assert GetNumbers(msg, "velocity", 3) == Some([1.0, 10.0, -5.0]);
    assert GetNumbers(msg, "quaternion", 4) == Some([1.0, 0.12, 0.34, 0.56]);
  }

  /** `validateAndGetJson`: copies number field `field` of `j`, if there is one. */
  method ValidateAndGetJson(field: string, j: Json) returns (ok: bool, value: real)
    ensures ok <==> IsNumberField(j, field)
    ensures ok ==> Member(j, field) == Number(value)
  {
    if Contains(j, field) && Member(j, field).Number? {
      return true, Member(j, field).num;
    }
    return false, 0.0;
  }

  /** `validateAndGetJsonArr`: copies the `len` numbers of array field `field`
      of `j` into `values[0..len)`; elements are copied one by one and the
      first non-number stops the copy. */
  method ValidateAndGetJsonArr(values: array<real>, field: string, j: Json, len: nat) returns (ok: bool)
    requires len <= values.Length
    modifies values
    ensures ok <==> IsNumberArrayField(j, field, len)
    ensures ok ==> values[..len] == Numbers(Member(j, field).elems)
    ensures forall k :: 0 <= k < values.Length && values[k] != old(values[k]) ==>
              k < len && Contains(j, field) && Member(j, field).Array? &&
              k < |Member(j, field).elems| && Member(j, field).elems[k] == Number(values[k])
  {
    if Contains(j, field) && Member(j, field).Array? && |Member(j, field).elems| == len {
      var arr := Member(j, field).elems;
      for i := 0 to len
        invariant forall k :: 0 <= k < i ==> arr[k] == Number(values[k])
        invariant forall k :: i <= k < values.Length ==> values[k] == old(values[k])
      {
        var number := arr[i];
        if !number.Number? {
          return false;
        }
        values[i] := number.num;
      }
      return true;
    }
    return false;
  }

  /** The field checks of one received message, in the backend's order. */
  method ValidateTelemetry(msg: Json) returns (r: Option<Telemetry>)
    ensures r == DecodeTelemetry(msg)
  {
    var ok, timestamp := ValidateAndGetJson("timestamp", msg);
    if !ok {
      return None;
    }
    if !(Contains(msg, "imu") && Member(msg, "imu").Object?) {
      return None;
    }
    var imu := Member(msg, "imu");
    var accel := new real[3];
    ok := ValidateAndGetJsonArr(accel, "accel_body", imu, 3);
    if !ok {
      return None;
    }
    var gyro := new real[3];
    ok := ValidateAndGetJsonArr(gyro, "gyro", imu, 3);
    if !ok {
      return None;
    }
    var position := new real[3];
    ok := ValidateAndGetJsonArr(position, "position", msg, 3);
    if !ok {
      return None;
    }
    var velocity := new real[3];
    ok := ValidateAndGetJsonArr(velocity, "velocity", msg, 3);
    if !ok {
      return None;
    }
    var quaternion := new real[4];
    ok := ValidateAndGetJsonArr(quaternion, "quaternion", msg, 4);
    if !ok {
      return None;
    }
    assert accel[..] == accel[..3] && gyro[..] == gyro[..3] && position[..] == position[..3];
    assert velocity[..] == velocity[..3] && quaternion[..] == quaternion[..4];
    r := Some(Telemetry(timestamp, gyro[..], accel[..], position[..], velocity[..], quaternion[..]));
  }
}
