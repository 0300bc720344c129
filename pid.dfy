/** The PID controller: three gains, three error accumulators, an update
    performed once per control tick and a gain-weighted total. Every C++
    double is modelled as a mathematical real. */
module Pid {

  /** The sum of all samples: what the integral accumulator holds. */
  function Sum(s: seq<real>): real {
    if s == [] then 0.0 else s[0] + Sum(s[1..])
  }

  /** The most recent sample, 0.0 before any sample: what the proportional
      accumulator holds. */
  function Latest(s: seq<real>): real {
    if s == [] then 0.0 else s[|s| - 1]
  }

  /** The latest sample minus the one before it (the one before the first
      sample counts as 0.0): what the derivative accumulator holds. */
  function LatestDiff(s: seq<real>): real {
    if s == [] then 0.0 else s[|s| - 1] - Latest(s[..|s| - 1])
  }

  /** The controller output after the samples `s`, as a closed form in the gains. */
  function ClosedFormTotal(kp: real, ki: real, kd: real, s: seq<real>): real {
    kp * Latest(s) + ki * Sum(s) + kd * LatestDiff(s)
  }

  /** Appending a sample adds it to the sum. */
  lemma {:induction false} SumAppend(s: seq<real>, x: real)
    ensures Sum(s + [x]) == Sum(s) + x
  {
    if s == [] {
      assert [] + [x] == [x];
    } else {
      assert (s + [x])[1..] == s[1..] + [x];
      SumAppend(s[1..], x);
    }
  }

  /** Appending a sample makes it the latest one, and the difference is taken
      against the previous latest sample. */
  lemma LatestAppend(s: seq<real>, x: real)
    ensures Latest(s + [x]) == x
    ensures LatestDiff(s + [x]) == x - Latest(s)
  {
    assert (s + [x])[..|s|] == s;
  }

  /** A sum of samples that all have the same sign has that sign. */
  lemma {:induction false} SumSign(s: seq<real>)
    ensures (forall k :: 0 <= k < |s| ==> s[k] >= 0.0) ==> Sum(s) >= 0.0
    ensures (forall k :: 0 <= k < |s| ==> s[k] <= 0.0) ==> Sum(s) <= 0.0
  {
    if s != [] {
      SumSign(s[1..]);
      assert forall k :: 0 <= k < |s| - 1 ==> s[1..][k] == s[k + 1];
    }
  }

  function Abs(x: real): real {
    if x < 0.0 then -x else x
  }

  /** Without anti-windup, the integral never shrinks in magnitude while all
      samples share one sign: extending the history can only grow |Sum|. */
  lemma {:induction false} IntegralMagnitudeGrows(s: seq<real>, t: seq<real>)
    requires (forall k :: 0 <= k < |s + t| ==> (s + t)[k] >= 0.0)
          || (forall k :: 0 <= k < |s + t| ==> (s + t)[k] <= 0.0)
    ensures Abs(Sum(s)) <= Abs(Sum(s + t))
  {
    if t == [] {
      assert s + t == s;
    } else {
      var u := t[..|t| - 1];
      var x := t[|t| - 1];
      assert t == u + [x];
      assert s + t == (s + u) + [x];
      assert forall k :: 0 <= k < |s + u| ==> (s + u)[k] == (s + t)[k];
      assert forall k :: 0 <= k < |s| ==> s[k] == (s + t)[k];
      IntegralMagnitudeGrows(s, u);
      SumAppend(s + u, x);
      SumSign(s + u);
      SumSign(s);
      if forall k :: 0 <= k < |s + t| ==> (s + t)[k] >= 0.0 {
        assert x == (s + t)[|s + t| - 1] >= 0.0;
        assert 0.0 <= Sum(s) <= Sum(s + u) <= Sum(s + t);
      } else {
        assert x == (s + t)[|s + t| - 1] <= 0.0;
        assert 0.0 >= Sum(s) >= Sum(s + u) >= Sum(s + t);
      }
    }
  }

  class PID {
    var Kp: real
    var Ki: real
    var Kd: real

    var p_error: real
    var i_error: real
    var d_error: real

    /** Every error sample given to UpdateError since construction or the last Init. */
    ghost var samples: seq<real>

    /** The accumulators agree with the sample history: the last sample, the
        sum of all samples, and the last difference. */
    ghost predicate Valid()
      reads this
    {
      p_error == Latest(samples) && i_error == Sum(samples) && d_error == LatestDiff(samples)
    }

    /** The C++ default constructor leaves every double uninitialised: the
        gains and accumulators are arbitrary, and no sample has been fed yet. */
    constructor ()
      ensures samples == []
    {
      Kp, Ki, Kd := *, *, *;
      p_error, i_error, d_error := *, *, *;
      samples := [];
    }

    /** Stores the gains and zeroes the accumulators. */
    method Init(Kp: real, Ki: real, Kd: real)
      modifies this
      ensures this.Kp == Kp && this.Ki == Ki && this.Kd == Kd
      ensures p_error == 0.0 && i_error == 0.0 && d_error == 0.0
      ensures samples == [] && Valid()
    {
      this.Kp := Kp;
      this.Ki := Ki;
      this.Kd := Kd;
      p_error := 0.0;
      i_error := 0.0;
      d_error := 0.0;
      samples := [];
    }

    /** One control tick: the integral grows by the sample, the derivative is
        the sample minus the previous proportional value, and only then does
        the proportional value become the sample. The gains are untouched. */
    method UpdateError(cte: real)
      modifies this
      ensures i_error == old(i_error) + cte
      ensures d_error == cte - old(p_error)
      ensures p_error == cte
      ensures Kp == old(Kp) && Ki == old(Ki) && Kd == old(Kd)
      ensures samples == old(samples) + [cte]
      ensures old(Valid()) ==> Valid()
    {
      SumAppend(samples, cte);
      LatestAppend(samples, cte);
      i_error := i_error + cte;
      d_error := cte - p_error;
      p_error := cte;
      samples := samples + [cte];
    }

    /** The gain-weighted sum of the accumulators. As a function it reads the
        object and changes nothing. After Init it is the closed form of the
        gains and the sample history. */
    function TotalError(): (r: real)
      reads this
      ensures Valid() ==> r == ClosedFormTotal(Kp, Ki, Kd, samples)
    {
      Kp * p_error + Ki * i_error + Kd * d_error
    }
  }

  /** Straight after Init the output is zero, whatever the gains. */
  lemma TotalAfterInit(pid: PID)
    requires pid.Valid() && pid.samples == []
    ensures pid.TotalError() == 0.0
  {
  }

  /** With all three gains zero the output is zero, after any updates. */
  lemma ZeroGainsGiveZero(pid: PID)
    requires pid.Kp == 0.0 && pid.Ki == 0.0 && pid.Kd == 0.0
    ensures pid.TotalError() == 0.0
  {
  }

  /** The closed form after one and after two samples. */
  lemma FirstSamples(kp: real, ki: real, kd: real, c1: real, c2: real)
    ensures Latest([c1]) == c1 && Sum([c1]) == c1 && LatestDiff([c1]) == c1
    ensures ClosedFormTotal(kp, ki, kd, [c1]) == (kp + ki + kd) * c1
    ensures Latest([c1, c2]) == c2 && Sum([c1, c2]) == c1 + c2 && LatestDiff([c1, c2]) == c2 - c1
  {
    assert [c1, c2][..1] == [c1];
    assert [c1, c2][1..] == [c2];
    assert [c2][1..] == [];
  }

  /** Worked scenarios: one gain at a time, and the tuning used on the track. */
  lemma Scenarios()
    ensures ClosedFormTotal(1.0, 0.0, 0.0, [0.5]) == 0.5
    ensures ClosedFormTotal(0.0, 1.0, 0.0, [0.2, 0.3]) == 0.5
    ensures ClosedFormTotal(0.0, 0.0, 1.0, [0.2, 0.5]) == 0.3
    ensures ClosedFormTotal(0.17, 0.00008, 1.1, [1.0]) == 1.27008
  {
    FirstSamples(0.0, 1.0, 0.0, 0.2, 0.3);
    FirstSamples(0.0, 0.0, 1.0, 0.2, 0.5);
  }
}
