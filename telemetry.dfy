/** The per-message logic of the simulator bridge, lifted out of the websocket
    message callback: payload extraction, the Socket.IO frame guard, the
    steering law with its clamp, and the three-tier throttle policy. */
module Telemetry {
  import opened CppString
  import opened Pid

  /** hasData as written: empty if "null" occurs anywhere, otherwise
      s.substr(b1, b2 - b1 + 1) for the first '[' at b1 and the last ']' at
      b2, with the length computed in wrapping size_t arithmetic and substr
      cutting it short at the end of the string; empty if a bracket is missing. */
  function HasData(s: string): (r: string)
    ensures Occurs(s, "null") ==> r == ""
    ensures '[' !in s || ']' !in s ==> r == ""
    ensures r == "" || r[0] == '['
    ensures IsSubstring(r, s)
  {
    var foundNull := Find(s, "null");
    var b1 := FindFirstOf(s, '[');
    var b2 := FindLastOf(s, ']');
    assert "" == s[0..0];
    if foundNull.Some? then
      ""
    else if b1.Some? && b2.Some? then
      var r := Substr(s, b1.value, ToSize(b2.value - b1.value + 1));
      assert r == s[b1.value..b1.value + |r|];
      r
    else
      ""
  }

  /** The first '[' of `s` is at `b1` and the last ']' is at `b2`. */
  predicate Brackets(s: string, b1: nat, b2: nat) {
    b1 < |s| && s[b1] == '[' && (forall j :: 0 <= j < b1 ==> s[j] != '[') &&
    b2 < |s| && s[b2] == ']' && (forall j :: b2 < j < |s| ==> s[j] != ']')
  }

  /** The two searches of hasData locate exactly the first '[' and the last ']'. */
  lemma BracketsLocated(s: string, b1: nat, b2: nat)
    ensures FindFirstOf(s, '[') == Some(b1) && FindLastOf(s, ']') == Some(b2) <==> Brackets(s, b1, b2)
  {
    if Brackets(s, b1, b2) {
      var f := FindFirstOf(s, '[');
      var l := FindLastOf(s, ']');
      assert f.Some? && l.Some?;
      assert !(f.value < b1) && !(b1 < f.value);
      assert !(l.value < b2) && !(b2 < l.value);
    }
  }

  /** With no "null" and the first '[' no later than the last ']', hasData
      is exactly the bracketed slice: it starts with '[' and ends with ']'.
      (A string shorter than 2^64 is all that std::string can hold.) */
  lemma HasDataSlice(s: string, b1: nat, b2: nat)
    requires |s| < SizeModulus
    requires !Occurs(s, "null") && Brackets(s, b1, b2) && b1 <= b2
    ensures HasData(s) == s[b1..b2 + 1]
    ensures HasData(s)[0] == '[' && HasData(s)[|HasData(s)| - 1] == ']'
  {
    BracketsLocated(s, b1, b2);
  }

  /** When the last ']' comes before the first '[', b2 - b1 + 1 wraps: to 0
      if the ']' is immediately before the '[', and otherwise to a count so
      large that substr runs to the end of the string. */
  lemma HasDataReversed(s: string, b1: nat, b2: nat)
    requires |s| < SizeModulus
    requires !Occurs(s, "null") && Brackets(s, b1, b2) && b2 < b1
    ensures b2 + 1 == b1 ==> HasData(s) == ""
    ensures b2 + 1 < b1 ==> HasData(s) == s[b1..]
  {
    BracketsLocated(s, b1, b2);
  }

  /** A concrete payload on which hasData returns a string that is not a
      bracketed array: "]x[" yields "[". */
  lemma HasDataReversedWitness()
    ensures HasData("]x[") == "["
    ensures HasData("]x[")[|HasData("]x[")| - 1] != ']'
  {
    var s := "]x[";
    assert !OccursAt(s, "null", 0);
    assert forall i :: i != 0 ==> !OccursAt(s, "null", i);
    assert Brackets(s, 2, 0);
    HasDataReversed(s, 2, 0);
  }

  /** hasData as evidently intended: the bracketed slice when the first '['
      comes no later than the last ']', and empty otherwise. */
  function PayloadSlice(s: string): (r: string)
    ensures Occurs(s, "null") ==> r == ""
    ensures '[' !in s || ']' !in s ==> r == ""
    ensures r == "" || (r[0] == '[' && r[|r| - 1] == ']')
    ensures IsSubstring(r, s)
  {
    var b1 := FindFirstOf(s, '[');
    var b2 := FindLastOf(s, ']');
    assert "" == s[0..0];
    if Find(s, "null").Some? then
      ""
    else if b1.Some? && b2.Some? && b1.value <= b2.value then
      s[b1.value..b2.value + 1]
    else
      ""
  }

  /** The corrected slice differs from hasData only when the brackets are
      reversed. */
  lemma PayloadSliceAgrees(s: string)
    requires |s| < SizeModulus
    requires forall b1: nat, b2: nat :: Brackets(s, b1, b2) ==> b1 <= b2
    ensures PayloadSlice(s) == HasData(s)
  {
    var b1 := FindFirstOf(s, '[');
    var b2 := FindLastOf(s, ']');
    if b1.Some? && b2.Some? {
      assert Brackets(s, b1.value, b2.value);
      if !Occurs(s, "null") {
        HasDataSlice(s, b1.value, b2.value);
      }
    }
  }

  /** The Socket.IO frame guard: a message is looked at only when it is longer
      than two characters and begins with "42" (Engine.IO packet type 4,
      "message", carrying Socket.IO packet type 2, "event"). */
  function IsEventFrame(data: string): (r: bool)
    ensures r <==> |data| > 2 && data[..2] == "42"
  {
    |data| > 2 && data[0] == '4' && data[1] == '2'
  }

  /** What the callback does with a frame before any JSON is decoded. */
  datatype Dispatch =
    | Ignore                   // not a Socket.IO event frame: nothing is sent
    | Manual                   // an event with no data: reply in manual mode
    | Decode(payload: string)  // hand the bracketed payload to the JSON decoder

  /** Classifies a raw frame: the guard first, then the payload extraction. */
  function Classify(data: string): (r: Dispatch)
    ensures r.Ignore? <==> !IsEventFrame(data)
    ensures r.Manual? <==> IsEventFrame(data) && PayloadSlice(data) == ""
    ensures r.Decode? ==> |r.payload| > 0 && r.payload[0] == '[' && r.payload[|r.payload| - 1] == ']'
    ensures r.Decode? ==> IsSubstring(r.payload, data) && !Occurs(data, "null")
    ensures r.Decode? ==> r.payload == PayloadSlice(data)
  {
    if !IsEventFrame(data) then
      Ignore
    else
      var payload := PayloadSlice(data);
      if payload == "" then
        Manual
      else
        assert payload[0] == '[' && payload[|payload| - 1] == ']';
        Decode(payload)
  }

  /** The steering law: the target cross-track error 0.0 minus the PID output,
      saturated to [-1, 1]. */
  function SteeringValue(total: real): (r: real)
    ensures -1.0 <= r <= 1.0
    ensures -1.0 <= total <= 1.0 ==> r == 0.0 - total
    ensures total < -1.0 ==> r == 1.0
    ensures total > 1.0 ==> r == -1.0
  {
    var steer := 0.0 - total;
    if steer > 1.0 then 1.0 else if steer < -1.0 then -1.0 else steer
  }

  /** Steering always opposes the controller output and never grows when the
      output grows. */
  lemma SteeringOpposes(t1: real, t2: real)
    ensures t1 > 0.0 ==> SteeringValue(t1) < 0.0
    ensures t1 < 0.0 ==> SteeringValue(t1) > 0.0
    ensures t1 <= t2 ==> SteeringValue(t2) <= SteeringValue(t1)
  {
  }

  /** The throttle policy, on the raw cross-track error: slow down as the car
      strays further from the centre line. */
  function Throttle(cte: real): (r: real)
    ensures r == 0.05 <==> Abs(cte) > 0.8
    ensures r == 0.1 <==> 0.3 < Abs(cte) <= 0.8
    ensures r == 0.2 <==> Abs(cte) <= 0.3
  {
    if cte > 0.8 || cte < -0.8 then
      0.05
    else if cte > 0.3 || cte < -0.3 then
      0.1
    else
      0.2
  }

  /** The throttle is one of three values and never increases as |cte| grows. */
  lemma ThrottleTiers(a: real, b: real)
    ensures Throttle(a) == 0.05 || Throttle(a) == 0.1 || Throttle(a) == 0.2
    ensures Abs(a) <= Abs(b) ==> Throttle(b) <= Throttle(a)
  {
  }

  /** The comparisons are strict: the boundaries fall in the gentler tier. */
  lemma ThrottleBoundaries()
    ensures Throttle(0.8) == 0.1 && Throttle(-0.8) == 0.1
    ensures Throttle(0.3) == 0.2 && Throttle(-0.3) == 0.2
    ensures Throttle(0.9) == 0.05 && Throttle(0.5) == 0.1 && Throttle(0.1) == 0.2
  {
  }

  /** The message sent back to the simulator. */
  datatype Reply =
    | NoReply
    | ManualReply
    | SteerReply(steering: real, throttle: real)

  /** One telemetry tick: feed the cross-track error to the controller, then
      steer against its output and pick the throttle tier from the raw error. */
  method OnTelemetry(pid: PID, cte: real) returns (steer: real, throttle: real)
    modifies pid
    ensures pid.samples == old(pid.samples) + [cte]
    ensures pid.i_error == old(pid.i_error) + cte && pid.d_error == cte - old(pid.p_error) && pid.p_error == cte
    ensures pid.Kp == old(pid.Kp) && pid.Ki == old(pid.Ki) && pid.Kd == old(pid.Kd)
    ensures old(pid.Valid()) ==> pid.Valid()
    ensures steer == SteeringValue(pid.TotalError()) && -1.0 <= steer <= 1.0
    ensures old(pid.Valid()) ==> steer == SteeringValue(ClosedFormTotal(pid.Kp, pid.Ki, pid.Kd, pid.samples))
    ensures throttle == Throttle(cte)
  {
    pid.UpdateError(cte);
    steer := SteeringValue(pid.TotalError());
    throttle := Throttle(cte);
  }

  /** The message callback. The JSON decoding of the payload is not modelled:
      `telemetry` is what the decoder yields, Some(cte) for a "telemetry"
      event and None for any other event. */
  method OnMessage(pid: PID, data: string, telemetry: Option<real>) returns (reply: Reply)
    modifies pid
    ensures !IsEventFrame(data) ==> reply == NoReply && unchanged(pid)
    ensures Classify(data).Manual? ==> reply == ManualReply && unchanged(pid)
    ensures Classify(data).Decode? && telemetry.None? ==> reply == NoReply && unchanged(pid)
    ensures Classify(data).Decode? && telemetry.Some? ==>
      && pid.Kp == old(pid.Kp) && pid.Ki == old(pid.Ki) && pid.Kd == old(pid.Kd)
      && pid.i_error == old(pid.i_error) + telemetry.value
      && pid.d_error == telemetry.value - old(pid.p_error)
      && pid.p_error == telemetry.value
      && pid.samples == old(pid.samples) + [telemetry.value]
      && (old(pid.Valid()) ==> pid.Valid())
      && reply == SteerReply(SteeringValue(pid.TotalError()), Throttle(telemetry.value))
  {
    match Classify(data)
    case Ignore =>
      reply := NoReply;
    case Manual =>
      reply := ManualReply;
    case Decode(_) =>
      if telemetry.Some? {
        var steer, throttle := OnTelemetry(pid, telemetry.value);
        reply := SteerReply(steer, throttle);
      } else {
        reply := NoReply;
      }
  }
}
