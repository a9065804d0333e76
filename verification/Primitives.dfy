// The value programs of the nonlinear primitives (hynergy-engine/src/compile/definition.rs),
// computed over real numbers, and what they mean.
module Primitives {
  import Stamps

  /** `less_equal` yields one or zero. */
  function LessEqual(a: real, b: real): real {
    if a <= b then 1.0 else 0.0
  }

  // ----- Voltage-controlled conductance -----

  datatype Ramp = Ramp(threshold: real, transition: real, gMin: real, gMax: real) {
    function Low(): real { threshold - transition * 0.5 }

    function High(): real { threshold + transition * 0.5 }

    function Slope(): real
      requires transition != 0.0
    {
      (gMax - gMin) / transition
    }

    /** The intended conductance: minimal, then rising linearly over the transition, then maximal. */
    function Conductance(control: real): real
      requires transition > 0.0
    {
      if control <= Low() then gMin
      else if High() <= control then gMax
      else gMin + Slope() * (control - Low())
    }

    /** The current that flows for given output and control voltages. */
    function Current(output: real, control: real): real
      requires transition > 0.0
    {
      Conductance(control) * output
    }
  }

  /** `stamp_voltage_controlled_conductance`: the values stamped for the present voltages. */
  function Linearize(p: Ramp, output: real, control: real): Stamps.Linearization
    requires p.transition != 0.0
  {
    var halfTransition := p.transition * 0.5;
    var low := p.threshold - halfTransition;
    var high := p.threshold + halfTransition;
    var conductanceRange := p.gMax - p.gMin;
    var transitionSlope := conductanceRange / p.transition;
    var below := LessEqual(control, low);
    var above := LessEqual(high, control);
    var inside := 1.0 - below - above;
    var activeSlope := transitionSlope * inside;
    var transitionDelta := activeSlope * (control - low);
    var aboveDelta := conductanceRange * above;
    var conductance := p.gMin + aboveDelta + transitionDelta;
    var transconductance := activeSlope * output;
    Stamps.Linearization(conductance, transconductance, transconductance * control)
  }

  /** The current that the stamped linear element carries at other voltages. */
  function LinearCurrent(values: Stamps.Linearization, output: real, control: real): real {
    values.conductance * output + values.transconductance * control - values.correction
  }

  /** It is the current of the stamped element. */
  lemma ElementCarriesLinearCurrent(
      p: Stamps.Unknown, n: Stamps.Unknown, control: Stamps.Unknown, values: Stamps.Linearization, x: Stamps.Assignment)
    ensures Stamps.ControlledConductance(p, n, control, values).Current(x) ==
            LinearCurrent(values, Stamps.Across(x, p, n), Stamps.Across(x, control, n))
  {
  }

  /** The value program selects exactly the intended piece of the ramp. */
  lemma LinearizeSelectsPiece(p: Ramp, output: real, control: real)
    requires p.transition > 0.0
    ensures var inside := p.Low() < control < p.High();
            var values := Linearize(p, output, control);
            && values.conductance == p.Conductance(control)
            && values.transconductance == (if inside then p.Slope() * output else 0.0)
            && values.correction == values.transconductance * control
  {
    var below, above := LessEqual(control, p.Low()), LessEqual(p.High(), control);
    assert p.Low() < p.High();
    SelectPiece(p.Slope(), p.gMax - p.gMin, below, above, control - p.Low(), output);
  }

  lemma SelectPiece(slope: real, range: real, below: real, above: real, offset: real, output: real)
    requires (below == 0.0 || below == 1.0) && (above == 0.0 || above == 1.0) && below + above <= 1.0
    ensures var active := slope * (1.0 - below - above);
            && active == (if below == 0.0 == above then slope else 0.0)
            && active * offset == (if below == 0.0 == above then slope * offset else 0.0)
            && range * above == (if above == 1.0 then range else 0.0)
            && active * output == (if below == 0.0 == above then slope * output else 0.0)
  {
  }

  /** At the voltages it was linearised for, the stamped element carries exactly the true current. */
  lemma LinearizationIsExactHere(
      ramp: Ramp, p: Stamps.Unknown, n: Stamps.Unknown, control: Stamps.Unknown, x: Stamps.Assignment)
    requires ramp.transition > 0.0
    ensures var output, input := Stamps.Across(x, p, n), Stamps.Across(x, control, n);
            Stamps.ControlledConductance(p, n, control, Linearize(ramp, output, input)).Current(x)
            == ramp.Current(output, input)
  {
    var output, input := Stamps.Across(x, p, n), Stamps.Across(x, control, n);
    ElementCarriesLinearCurrent(p, n, control, Linearize(ramp, output, input), x);
    LinearizeSelectsPiece(ramp, output, input);
  }

  ghost predicate SamePiece(p: Ramp, a: real, b: real) {
    || (a <= p.Low() && b <= p.Low())
    || (p.High() <= a && p.High() <= b)
    || (p.Low() < a < p.High() && p.Low() < b < p.High())
  }

  /** Elsewhere on the same piece of the ramp the error is the product of the two voltage changes
      (and zero on the flat pieces): the iteration is Newton's method. */
  lemma LinearizationErrorIsSecondOrder(p: Ramp, output: real, control: real, output1: real, control1: real)
    requires p.transition > 0.0 && SamePiece(p, control, control1)
    ensures p.Current(output1, control1) - LinearCurrent(Linearize(p, output, control), output1, control1) ==
            if p.Low() < control < p.High() then p.Slope() * (control1 - control) * (output1 - output) else 0.0
  {
    LinearizeSelectsPiece(p, output, control);
    if p.Low() < control < p.High() {
      SecondOrder(p.gMin, p.Slope(), p.Low(), output, control, output1, control1);
    }
  }

  lemma SecondOrder(g: real, s: real, low: real, u: real, v: real, u1: real, v1: real)
    ensures (g + s * (v1 - low)) * u1 - ((g + s * (v - low)) * u1 + s * u * v1 - s * u * v) == s * (v1 - v) * (u1 - u)
  {
    assert (g + s * (v1 - low)) * u1 - (g + s * (v - low)) * u1 == s * (v1 - v) * u1;
    assert s * u * v1 - s * u * v == s * (v1 - v) * u;
  }

  /** The ramp stays between its bounds. */
  lemma RampIsBounded(p: Ramp, control: real)
    requires p.transition > 0.0 && p.gMin <= p.gMax
    ensures p.gMin <= p.Conductance(control) <= p.gMax
  {
    if p.Low() < control < p.High() {
      RampInside(p.gMax - p.gMin, p.transition, control - p.Low());
    }
  }

  lemma RampInside(range: real, transition: real, offset: real)
    requires range >= 0.0 && 0.0 < offset < transition
    ensures 0.0 <= range / transition * offset <= range
  {
    var slope := range / transition;
    assert slope * transition == range;
    assert slope >= 0.0;
    assert slope * offset <= slope * transition;
  }

  // ----- Hysteresis -----

  /** `hysteretic_binary_mode`: the next mode from the latched one. */
  function NextMode(input: real, mode: real, threshold: real, hysteresis: real): real {
    var halfHysteresis := hysteresis * 0.5;
    var lower := threshold - halfHysteresis;
    var upper := threshold + halfHysteresis;
    var turnOn := LessEqual(upper, input);
    var turnOff := LessEqual(input, lower);
    var off := 1.0 - mode;
    var remainOn := 1.0 - turnOff;
    var hystereticMode := off * turnOn + mode * remainOn;
    var zeroHysteresis := LessEqual(hysteresis, 0.0);
    var directMode := LessEqual(threshold, input);
    var useHysteresis := 1.0 - zeroHysteresis;
    useHysteresis * hystereticMode + zeroHysteresis * directMode
  }

  /** The comparator with a dead band: on from the upper threshold, off up to the lower one, and the
      mode kept in between; without hysteresis a direct comparison. */
  function Comparator(input: real, on: bool, threshold: real, hysteresis: real): bool {
    if hysteresis <= 0.0 then threshold <= input
    else if threshold + hysteresis * 0.5 <= input then true
    else if input <= threshold - hysteresis * 0.5 then false
    else on
  }

  function AsLevel(b: bool): real {
    if b then 1.0 else 0.0
  }

  /** On modes zero and one the arithmetic program computes the comparator. */
  lemma NextModeIsComparator(input: real, on: bool, threshold: real, hysteresis: real)
    ensures NextMode(input, AsLevel(on), threshold, hysteresis) == AsLevel(Comparator(input, on, threshold, hysteresis))
  {
    var turnOn := LessEqual(threshold + hysteresis * 0.5, input);
    var remainOn := 1.0 - LessEqual(input, threshold - hysteresis * 0.5);
    Mux(AsLevel(on), turnOn, remainOn);
    Mux(LessEqual(hysteresis, 0.0), (1.0 - AsLevel(on)) * turnOn + AsLevel(on) * remainOn, LessEqual(threshold, input));
  }

  lemma Mux(select: real, low: real, high: real)
    requires select == 0.0 || select == 1.0
    ensures (1.0 - select) * low + select * high == if select == 1.0 then high else low
  {
  }

  /** Inside the dead band a mode never changes, however the input moves. */
  lemma {:induction false} DeadBandHolds(inputs: seq<real>, on: bool, threshold: real, hysteresis: real)
    requires hysteresis > 0.0
    requires forall i | 0 <= i < |inputs| :: InDeadBand(inputs[i], threshold, hysteresis)
    ensures RunModes(inputs, on, threshold, hysteresis) == on
  {
    if inputs != [] {
      DeadBandHolds(inputs[..|inputs| - 1], on, threshold, hysteresis);
    }
  }

  /** The mode after a series of inputs. */
  function RunModes(inputs: seq<real>, on: bool, threshold: real, hysteresis: real): bool {
    if inputs == [] then on
    else Comparator(inputs[|inputs| - 1], RunModes(inputs[..|inputs| - 1], on, threshold, hysteresis), threshold,
      hysteresis)
  }

  ghost predicate InDeadBand(input: real, threshold: real, hysteresis: real) {
    threshold - hysteresis * 0.5 < input < threshold + hysteresis * 0.5
  }

  /** The last input outside the dead band decides the mode, whatever the mode was before. */
  lemma {:induction false} LastExcursionDecides(inputs: seq<real>, on: bool, threshold: real, hysteresis: real, i: nat)
    requires hysteresis > 0.0 && i < |inputs| && !InDeadBand(inputs[i], threshold, hysteresis)
    requires forall k | i < k < |inputs| :: InDeadBand(inputs[k], threshold, hysteresis)
    ensures RunModes(inputs, on, threshold, hysteresis) <==> inputs[i] >= threshold
  {
    var n := |inputs| - 1;
    if i < n {
      assert InDeadBand(inputs[n], threshold, hysteresis);
      forall k | i < k < n ensures InDeadBand(inputs[..n][k], threshold, hysteresis) {
        assert inputs[..n][k] == inputs[k];
      }
      LastExcursionDecides(inputs[..n], on, threshold, hysteresis, i);
    }
  }

  // ----- Logic gates -----

  datatype Gate = Not | And | Nand | Or | Nor

  /** `compile_logic_gate`: the output mode from the input levels. */
  function OutputHigh(kind: Gate, a: real, b: real): real {
    match kind
    case Not => 1.0 - a
    case And => a * b
    case Nand => 1.0 - a * b
    case Or => a + b - a * b
    case Nor => (1.0 - a) * (1.0 - b)
  }

  function Boolean(kind: Gate, a: bool, b: bool): bool {
    match kind
    case Not => !a
    case And => a && b
    case Nand => !(a && b)
    case Or => a || b
    case Nor => !(a || b)
  }

  lemma GateComputesBoolean(kind: Gate, a: bool, b: bool)
    ensures OutputHigh(kind, AsLevel(a), AsLevel(b)) == AsLevel(Boolean(kind, a, b))
  {
  }

  /** The pull conductances of the complementary output stage. */
  function Pulls(high: real, gMax: real, gMin: real): (real, real) {
    var highDelta := high * (gMax - gMin);
    (gMin + highDelta, gMax - highDelta)
  }

  /** The voltage at which an unloaded output stage balances (the blend of the rails). */
  function Balance(pulls: (real, real), vdd: real, vss: real): real
    requires pulls.0 + pulls.1 != 0.0
  {
    (pulls.0 * vdd + pulls.1 * vss) / (pulls.0 + pulls.1)
  }

  lemma PullsFollowMode(high: bool, gMax: real, gMin: real)
    ensures Pulls(AsLevel(high), gMax, gMin) == if high then (gMax, gMin) else (gMin, gMax)
  {
  }

  /** The share of the supply that the stronger pull leaves at the output. */
  function HighShare(gMax: real, gMin: real): real
    requires gMax + gMin != 0.0
  {
    gMax / (gMax + gMin)
  }

  /** The noise-margin condition: the threshold separates the two output levels. */
  ghost predicate Separates(threshold: real, gMax: real, gMin: real, vdd: real, vss: real)
    requires gMax + gMin != 0.0
  {
    (1.0 - HighShare(gMax, gMin)) * (vdd - vss) < threshold <= HighShare(gMax, gMin) * (vdd - vss)
  }

  /** The level that is read at the balanced output of a gate with inputs at `va` and `vb`. */
  function OutputLevel(
      kind: Gate, va: real, vb: real, threshold: real, gMax: real, gMin: real, vdd: real, vss: real): real
    requires gMax + gMin != 0.0
  {
    var pulls := Pulls(OutputHigh(kind, LessEqual(threshold, va - vss), LessEqual(threshold, vb - vss)), gMax, gMin);
    LessEqual(threshold, Balance(pulls, vdd, vss) - vss)
  }

  ghost predicate ReadsBoolean(
      kind: Gate, va: real, vb: real, threshold: real, gMax: real, gMin: real, vdd: real, vss: real)
    requires gMax + gMin != 0.0
  {
    OutputLevel(kind, va, vb, threshold, gMax, gMin, vdd, vss)
    == AsLevel(Boolean(kind, threshold <= va - vss, threshold <= vb - vss))
  }

  /** What one gate's output reads as when its boolean function is `high`. */
  lemma OutputLevelIs(
      kind: Gate, va: real, vb: real, high: bool, threshold: real, gMax: real, gMin: real, vdd: real, vss: real)
    requires gMax + gMin != 0.0 && high == Boolean(kind, threshold <= va - vss, threshold <= vb - vss)
    ensures ReadsBoolean(kind, va, vb, threshold, gMax, gMin, vdd, vss) <==>
            if high then threshold <= HighShare(gMax, gMin) * (vdd - vss)
            else (1.0 - HighShare(gMax, gMin)) * (vdd - vss) < threshold
  {
    GateComputesBoolean(kind, threshold <= va - vss, threshold <= vb - vss);
    PullsFollowMode(high, gMax, gMin);
    BalanceIsShare(gMax, gMin, vdd, vss);
  }

  /** Input voltages at which a gate's boolean function has a given value. */
  function InputsFor(kind: Gate, high: bool): (bool, bool)
    ensures Boolean(kind, InputsFor(kind, high).0, InputsFor(kind, high).1) == high
  {
    match kind
    case Not | Nand | Nor => (!high, !high)
    case And | Or => (high, high)
  }

  /** For each kind of gate: at all input voltages its balanced output, read with the threshold of its inputs, is its
      boolean function of the inputs so read, exactly when the threshold separates the two output levels. This is the
      boolean-level behaviour the gate-level circuits rely on. */
  lemma GateLevelIsBoolean(kind: Gate, threshold: real, gMax: real, gMin: real, vdd: real, vss: real)
    requires gMax + gMin != 0.0
    ensures (forall va, vb :: ReadsBoolean(kind, va, vb, threshold, gMax, gMin, vdd, vss))
            <==> Separates(threshold, gMax, gMin, vdd, vss)
  {
    forall va, vb
      ensures Separates(threshold, gMax, gMin, vdd, vss) ==> ReadsBoolean(kind, va, vb, threshold, gMax, gMin, vdd, vss)
    {
      OutputLevelIs(kind, va, vb, Boolean(kind, threshold <= va - vss, threshold <= vb - vss), threshold, gMax, gMin,
        vdd, vss);
    }
    if forall va, vb :: ReadsBoolean(kind, va, vb, threshold, gMax, gMin, vdd, vss) {
      SeparatesOneSide(kind, true, threshold, gMax, gMin, vdd, vss);
      SeparatesOneSide(kind, false, threshold, gMax, gMin, vdd, vss);
    }
  }

  function VoltageOf(high: bool, threshold: real, vss: real): real {
    if high then threshold + vss else threshold + vss - 1.0
  }

  lemma SeparatesOneSide(kind: Gate, high: bool, threshold: real, gMax: real, gMin: real, vdd: real, vss: real)
    requires gMax + gMin != 0.0
    requires forall va, vb :: ReadsBoolean(kind, va, vb, threshold, gMax, gMin, vdd, vss)
    ensures if high then threshold <= HighShare(gMax, gMin) * (vdd - vss)
            else (1.0 - HighShare(gMax, gMin)) * (vdd - vss) < threshold
  {
    var (a, b) := InputsFor(kind, high);
    var va, vb := VoltageOf(a, threshold, vss), VoltageOf(b, threshold, vss);
    OutputLevelIs(kind, va, vb, high, threshold, gMax, gMin, vdd, vss);
    assert ReadsBoolean(kind, va, vb, threshold, gMax, gMin, vdd, vss);
  }

  lemma BalanceIsShare(gMax: real, gMin: real, vdd: real, vss: real)
    requires gMax + gMin != 0.0
    ensures Balance((gMax, gMin), vdd, vss) - vss == HighShare(gMax, gMin) * (vdd - vss)
    ensures gMin + gMax != 0.0 && Balance((gMin, gMax), vdd, vss) - vss == (1.0 - HighShare(gMax, gMin)) * (vdd - vss)
  {
    Divide(gMax, gMin, vdd, vss);
    Divide(gMin, gMax, vdd, vss);
    assert gMax / (gMax + gMin) + gMin / (gMax + gMin) == 1.0;
  }

  lemma Divide(a: real, b: real, high: real, low: real)
    requires a + b != 0.0
    ensures (a * high + b * low) / (a + b) - low == a / (a + b) * (high - low)
  {
    var n, d := a * high + b * low, a + b;
    assert n - low * d == a * (high - low);
    assert n / d - low == (n - low * d) / d;
    assert (a * (high - low)) / d == a / d * (high - low);
  }
}
