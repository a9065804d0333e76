// Parameter constraints and their implication order (hynergy-model/src/parameter.rs), over the reals: of all finite
// values only zero lacks a finite reciprocal.
module Parameters {
  import opened Support

  datatype Bound<+V> = Bound(value: V, inclusive: bool)

  datatype ParameterConstraints<+V> = ParameterConstraints(
    lower: Option<Bound<V>>,
    upper: Option<Bound<V>>,
    nonZero: bool,
    reciprocalRange: Option<(Option<Bound<V>>, Option<Bound<V>>)>)

  type Constraints = ParameterConstraints<real>

  /** A parameter as it arrives: a number, or an infinity or not-a-number. */
  datatype Parameter = Finite(value: real) | NotFinite

  datatype ParameterConstraintError = NonFinite | ZeroNotAllowed | OutOfRange | ReciprocalOutOfRange

  predicate WithinBounds(value: real, lower: Option<Bound<real>>, upper: Option<Bound<real>>) {
    && (lower.None? || if lower.value.inclusive then value >= lower.value.value else value > lower.value.value)
    && (upper.None? || if upper.value.inclusive then value <= upper.value.value else value < upper.value.value)
  }

  function Validate(constraints: Constraints, parameter: Parameter): Result<(), ParameterConstraintError> {
    if parameter.NotFinite? then Err(NonFinite)
    else if constraints.nonZero && parameter.value == 0.0 then Err(ZeroNotAllowed)
    else if !WithinBounds(parameter.value, constraints.lower, constraints.upper) then Err(OutOfRange)
    else
      match constraints.reciprocalRange
      case None => Ok(())
      case Some((lower, upper)) =>
        if parameter.value != 0.0 && WithinBounds(1.0 / parameter.value, lower, upper) then Ok(())
        else Err(ReciprocalOutOfRange)
  }

  predicate Admits(constraints: Constraints, value: real) {
    Validate(constraints, Finite(value)).Ok?
  }

  // ----- Implication -----

  predicate LowerBoundImplies(provided: Option<Bound<real>>, required: Option<Bound<real>>) {
    if required.None? then true
    else if provided.None? then false
    else
      || provided.value.value > required.value.value
      || (provided.value.value == required.value.value && (!provided.value.inclusive || required.value.inclusive))
  }

  predicate UpperBoundImplies(provided: Option<Bound<real>>, required: Option<Bound<real>>) {
    if required.None? then true
    else if provided.None? then false
    else
      || provided.value.value < required.value.value
      || (provided.value.value == required.value.value && (!provided.value.inclusive || required.value.inclusive))
  }

  /** Exactly the constraints that do not admit zero. */
  predicate ExcludesZero(constraints: Constraints)
    ensures ExcludesZero(constraints) <==> !Admits(constraints, 0.0)
  {
    || constraints.nonZero
    || constraints.reciprocalRange.Some?
    || (constraints.lower.Some?
        && (constraints.lower.value.value > 0.0
            || (constraints.lower.value.value == 0.0 && !constraints.lower.value.inclusive)))
    || (constraints.upper.Some?
        && (constraints.upper.value.value < 0.0
            || (constraints.upper.value.value == 0.0 && !constraints.upper.value.inclusive)))
  }

  predicate ReciprocalRangeImplies(provided: Constraints, required: Constraints) {
    match required.reciprocalRange
    case None => true
    case Some((requiredLower, requiredUpper)) =>
      if requiredLower.None? && requiredUpper.None? then ExcludesZero(provided)
      else
        match provided.reciprocalRange
        case None => false
        case Some((lower, upper)) => LowerBoundImplies(lower, requiredLower) && UpperBoundImplies(upper, requiredUpper)
  }

  predicate IsSubsetOf(provided: Constraints, required: Constraints) {
    && LowerBoundImplies(provided.lower, required.lower)
    && UpperBoundImplies(provided.upper, required.upper)
    && (required.nonZero ==> ExcludesZero(provided))
    && ReciprocalRangeImplies(provided, required)
  }

  // ----- A sound preorder -----

  lemma BoundsAreSound(
      value: real, lower: Option<Bound<real>>, upper: Option<Bound<real>>,
      requiredLower: Option<Bound<real>>, requiredUpper: Option<Bound<real>>)
    requires WithinBounds(value, lower, upper)
    requires LowerBoundImplies(lower, requiredLower) && UpperBoundImplies(upper, requiredUpper)
    ensures WithinBounds(value, requiredLower, requiredUpper)
  {
  }

  /** Every value the provided constraints admit, the required ones admit too. */
  lemma SubsetIsSound(provided: Constraints, required: Constraints, value: real)
    requires IsSubsetOf(provided, required) && Admits(provided, value)
    ensures Admits(required, value)
  {
    BoundsAreSound(value, provided.lower, provided.upper, required.lower, required.upper);
    if required.reciprocalRange.Some? && provided.reciprocalRange.Some? {
      var (requiredLower, requiredUpper) := required.reciprocalRange.value;
      var (lower, upper) := provided.reciprocalRange.value;
      if requiredLower.Some? || requiredUpper.Some? {
        BoundsAreSound(1.0 / value, lower, upper, requiredLower, requiredUpper);
      }
    }
  }

  lemma SubsetIsReflexive(constraints: Constraints)
    ensures IsSubsetOf(constraints, constraints)
  {
  }

  lemma SubsetIsTransitive(a: Constraints, b: Constraints, c: Constraints)
    requires IsSubsetOf(a, b) && IsSubsetOf(b, c)
    ensures IsSubsetOf(a, c)
  {
    if ExcludesZero(b) && Admits(a, 0.0) {
      SubsetIsSound(a, b, 0.0);
    }
  }

  // ----- Exactness -----

  ghost predicate Includes(required: Constraints, provided: Constraints) {
    forall value: real :: Admits(provided, value) ==> Admits(required, value)
  }

  ghost predicate Decides(provided: Constraints, required: Constraints) {
    IsSubsetOf(provided, required) <==> Includes(required, provided)
  }

  ghost predicate IsSatisfiable(constraints: Constraints) {
    exists value: real :: Admits(constraints, value)
  }

  /** The value or, for the reciprocal range, its reciprocal is below `limit`; zero is below and above every limit. */
  predicate Under(reciprocal: bool, value: real, limit: real) {
    if reciprocal then value == 0.0 || 1.0 / value < limit else value < limit
  }

  predicate Over(reciprocal: bool, value: real, limit: real) {
    if reciprocal then value == 0.0 || 1.0 / value > limit else value > limit
  }

  predicate Meets(reciprocal: bool, value: real, limit: real) {
    if reciprocal then value != 0.0 && 1.0 / value == limit else value == limit
  }

  ghost predicate AnyUnder(constraints: Constraints, reciprocal: bool, limit: real) {
    exists value :: Admits(constraints, value) && Under(reciprocal, value, limit)
  }

  ghost predicate AnyOver(constraints: Constraints, reciprocal: bool, limit: real) {
    exists value :: Admits(constraints, value) && Over(reciprocal, value, limit)
  }

  ghost predicate AnyAt(constraints: Constraints, reciprocal: bool, limit: real) {
    exists value :: Admits(constraints, value) && Meets(reciprocal, value, limit)
  }

  /** A lower bound is the infimum of what is admitted, and attained if it is inclusive; no bound means no infimum. */
  ghost predicate TightBelow(constraints: Constraints, reciprocal: bool, lower: Option<Bound<real>>) {
    && (forall limit: real | lower.Some? ==> limit > lower.value.value :: AnyUnder(constraints, reciprocal, limit))
    && (lower.Some? && lower.value.inclusive ==> AnyAt(constraints, reciprocal, lower.value.value))
  }

  ghost predicate TightAbove(constraints: Constraints, reciprocal: bool, upper: Option<Bound<real>>) {
    && (forall limit: real | upper.Some? ==> limit < upper.value.value :: AnyOver(constraints, reciprocal, limit))
    && (upper.Some? && upper.value.inclusive ==> AnyAt(constraints, reciprocal, upper.value.value))
  }

  ghost predicate BoundsAreTight(constraints: Constraints) {
    TightBelow(constraints, false, constraints.lower) && TightAbove(constraints, false, constraints.upper)
  }

  function ReciprocalBounds(constraints: Constraints): (Option<Bound<real>>, Option<Bound<real>>) {
    if constraints.reciprocalRange.Some? then constraints.reciprocalRange.value else (None, None)
  }

  ghost predicate ReciprocalsAreTight(constraints: Constraints) {
    && TightBelow(constraints, true, ReciprocalBounds(constraints).0)
    && TightAbove(constraints, true, ReciprocalBounds(constraints).1)
  }

  predicate BoundsNoReciprocal(constraints: Constraints) {
    ReciprocalBounds(constraints) == (None, None)
  }

  /** What a single lower or upper bound, on the value or on its reciprocal, requires. */
  function Requiring(reciprocal: bool, lower: Option<Bound<real>>, upper: Option<Bound<real>>): Constraints {
    if reciprocal then ParameterConstraints(None, None, false, Some((lower, upper)))
    else ParameterConstraints(lower, upper, false, None)
  }

  /** A tight bound that does not imply the required one is passed by an admitted value. */
  lemma PassesBelow(
      provided: Constraints, reciprocal: bool, lower: Option<Bound<real>>, required: Option<Bound<real>>)
    returns (value: real)
    requires TightBelow(provided, reciprocal, lower) && !LowerBoundImplies(lower, required)
    ensures Admits(provided, value) && !Admits(Requiring(reciprocal, required, None), value)
  {
    var limit := required.value.value;
    if lower.Some? && lower.value.value == limit {
      assert AnyAt(provided, reciprocal, limit);
      value :| Admits(provided, value) && Meets(reciprocal, value, limit);
    } else {
      assert AnyUnder(provided, reciprocal, limit);
      value :| Admits(provided, value) && Under(reciprocal, value, limit);
    }
  }

  lemma PassesAbove(
      provided: Constraints, reciprocal: bool, upper: Option<Bound<real>>, required: Option<Bound<real>>)
    returns (value: real)
    requires TightAbove(provided, reciprocal, upper) && !UpperBoundImplies(upper, required)
    ensures Admits(provided, value) && !Admits(Requiring(reciprocal, None, required), value)
  {
    var limit := required.value.value;
    if upper.Some? && upper.value.value == limit {
      assert AnyAt(provided, reciprocal, limit);
      value :| Admits(provided, value) && Meets(reciprocal, value, limit);
    } else {
      assert AnyOver(provided, reciprocal, limit);
      value :| Admits(provided, value) && Over(reciprocal, value, limit);
    }
  }

  /** Tight constraints decide every inclusion; without tight reciprocals, those that bound no reciprocal. */
  lemma TightDecides(provided: Constraints, required: Constraints)
    requires BoundsAreTight(provided) && (ReciprocalsAreTight(provided) || BoundsNoReciprocal(required))
    ensures Decides(provided, required)
  {
    var (lower, upper) := ReciprocalBounds(required);
    if IsSubsetOf(provided, required) {
      forall value: real | Admits(provided, value) ensures Admits(required, value) {
        SubsetIsSound(provided, required, value);
      }
    } else if !LowerBoundImplies(provided.lower, required.lower) {
      var value := PassesBelow(provided, false, provided.lower, required.lower);
    } else if !UpperBoundImplies(provided.upper, required.upper) {
      var value := PassesAbove(provided, false, provided.upper, required.upper);
    } else if !LowerBoundImplies(ReciprocalBounds(provided).0, lower) {
      var value := PassesBelow(provided, true, ReciprocalBounds(provided).0, lower);
    } else if !UpperBoundImplies(ReciprocalBounds(provided).1, upper) {
      var value := PassesAbove(provided, true, ReciprocalBounds(provided).1, upper);
    } else {
      assert Admits(provided, 0.0) && !Admits(required, 0.0);
    }
  }

  /** Where a single required bound is decided, a bound of the same kind is tight. */
  lemma DecidingIsTight(provided: Constraints, reciprocal: bool)
    requires forall lower :: Decides(provided, Requiring(reciprocal, lower, None))
    requires forall upper :: Decides(provided, Requiring(reciprocal, None, upper))
    ensures reciprocal ==> ReciprocalsAreTight(provided)
    ensures !reciprocal ==> BoundsAreTight(provided)
  {
    var (lower, upper) := if reciprocal then ReciprocalBounds(provided) else (provided.lower, provided.upper);
    forall limit: real | lower.Some? ==> limit > lower.value.value ensures AnyUnder(provided, reciprocal, limit) {
      var value := NotIncluded(provided, Requiring(reciprocal, Some(Bound(limit, true)), None));
    }
    forall limit: real | upper.Some? ==> limit < upper.value.value ensures AnyOver(provided, reciprocal, limit) {
      var value := NotIncluded(provided, Requiring(reciprocal, None, Some(Bound(limit, true))));
    }
    if lower.Some? && lower.value.inclusive {
      var value := NotIncluded(provided, Requiring(reciprocal, Some(Bound(lower.value.value, false)), None));
    }
    if upper.Some? && upper.value.inclusive {
      var value := NotIncluded(provided, Requiring(reciprocal, None, Some(Bound(upper.value.value, false))));
    }
  }

  lemma NotIncluded(provided: Constraints, required: Constraints) returns (value: real)
    requires Decides(provided, required) && !IsSubsetOf(provided, required)
    ensures Admits(provided, value) && !Admits(required, value)
  {
    value :| Admits(provided, value) && !Admits(required, value);
  }

  /** For any provided constraints: the test decides every inclusion exactly when every bound is tight, and every
      inclusion that bounds no reciprocal exactly when the bounds on the value are. */
  lemma SubsetIsExactIffTight(provided: Constraints)
    ensures (forall required :: Decides(provided, required)) <==>
      BoundsAreTight(provided) && ReciprocalsAreTight(provided)
    ensures (forall required | BoundsNoReciprocal(required) :: Decides(provided, required)) <==>
      BoundsAreTight(provided)
  {
    forall required | BoundsAreTight(provided) && (ReciprocalsAreTight(provided) || BoundsNoReciprocal(required))
      ensures Decides(provided, required)
    {
      TightDecides(provided, required);
    }
    if forall required | BoundsNoReciprocal(required) :: Decides(provided, required) {
      forall bound
        ensures BoundsNoReciprocal(Requiring(false, bound, None)) && BoundsNoReciprocal(Requiring(false, None, bound))
      {
      }
      DecidingIsTight(provided, false);
    }
    if forall required :: Decides(provided, required) {
      DecidingIsTight(provided, true);
    }
  }

  // ----- Exactness without a bound on the reciprocal -----

  /** Every inclusive bound is itself admitted: none of them is the excluded zero or beyond the other bound. */
  predicate AttainsBounds(constraints: Constraints) {
    && (constraints.lower.Some? && constraints.lower.value.inclusive ==>
      Admits(constraints, constraints.lower.value.value))
    && (constraints.upper.Some? && constraints.upper.value.inclusive ==>
      Admits(constraints, constraints.upper.value.value))
  }

  /** There is room between the bounds. */
  predicate HasRoom(constraints: Constraints) {
    || constraints.lower.None?
    || constraints.upper.None?
    || constraints.lower.value.value < constraints.upper.value.value
    || Admits(constraints, constraints.lower.value.value)
  }

  /** Zero is admitted, or would be but for being zero: reciprocals are not bounded on any side. */
  predicate SurroundsZero(constraints: Constraints) {
    || Admits(constraints, 0.0)
    || ((constraints.lower.None? || constraints.lower.value.value < 0.0)
        && (constraints.upper.None? || constraints.upper.value.value > 0.0))
  }

  /** A point strictly between two others that is not zero. */
  lemma NonZeroBetween(low: real, high: real) returns (value: real)
    requires low < high
    ensures low < value < high && value != 0.0
  {
    value := (low + high) / 2.0;
    if value == 0.0 {
      value := (low + value) / 2.0;
    }
  }

  lemma RoomIsSatisfiable(constraints: Constraints)
    requires BoundsNoReciprocal(constraints)
    ensures HasRoom(constraints) <==> IsSatisfiable(constraints)
  {
    var lower, upper := constraints.lower, constraints.upper;
    if IsSatisfiable(constraints) {
      var value :| Admits(constraints, value);
      assert lower.Some? && upper.Some? && lower.value.value >= upper.value.value ==> value == lower.value.value;
    }
    if lower.None? || upper.None? || lower.value.value < upper.value.value {
      var low := if lower.Some? then lower.value.value else if upper.Some? then upper.value.value - 1.0 else 0.0;
      var high := if upper.Some? then upper.value.value else low + 1.0;
      var value := NonZeroBetween(low, high);
      assert Admits(constraints, value);
    }
  }

  lemma AdmittedUnder(constraints: Constraints, inside: real, limit: real)
    requires BoundsNoReciprocal(constraints) && Admits(constraints, inside)
    requires constraints.lower.Some? ==> limit > constraints.lower.value.value
    ensures AnyUnder(constraints, false, limit)
  {
    var value := inside;
    if inside >= limit {
      var low := if constraints.lower.Some? then constraints.lower.value.value else limit - 1.0;
      value := NonZeroBetween(low, limit);
    }
    assert Admits(constraints, value) && Under(false, value, limit);
  }

  lemma AdmittedOver(constraints: Constraints, inside: real, limit: real)
    requires BoundsNoReciprocal(constraints) && Admits(constraints, inside)
    requires constraints.upper.Some? ==> limit < constraints.upper.value.value
    ensures AnyOver(constraints, false, limit)
  {
    var value := inside;
    if inside <= limit {
      var high := if constraints.upper.Some? then constraints.upper.value.value else limit + 1.0;
      value := NonZeroBetween(limit, high);
    }
    assert Admits(constraints, value) && Over(false, value, limit);
  }

  lemma TightIffAttained(constraints: Constraints)
    requires BoundsNoReciprocal(constraints)
    ensures BoundsAreTight(constraints) <==> HasRoom(constraints) && AttainsBounds(constraints)
  {
    RoomIsSatisfiable(constraints);
    var lower, upper := constraints.lower, constraints.upper;
    if BoundsAreTight(constraints) {
      assert AnyUnder(constraints, false, if lower.Some? then lower.value.value + 1.0 else 0.0);
    } else if HasRoom(constraints) && AttainsBounds(constraints) {
      var inside :| Admits(constraints, inside);
      forall limit: real | lower.Some? ==> limit > lower.value.value ensures AnyUnder(constraints, false, limit) {
        AdmittedUnder(constraints, inside, limit);
      }
      forall limit: real | upper.Some? ==> limit < upper.value.value ensures AnyOver(constraints, false, limit) {
        AdmittedOver(constraints, inside, limit);
      }
      assert lower.Some? && lower.value.inclusive ==> Meets(false, lower.value.value, lower.value.value);
      assert upper.Some? && upper.value.inclusive ==> Meets(false, upper.value.value, upper.value.value);
    }
  }

  lemma InverseOf(x: real)
    requires x > 0.0
    ensures 1.0 / x > 0.0 && x * (1.0 / x) == 1.0 && 1.0 / (1.0 / x) == x && 1.0 / (-x) == -(1.0 / x)
  {
    var y := 1.0 / x;
    assert y * x == 1.0;
    assert (1.0 / y) * y == 1.0;
    assert (1.0 / y) * y * x == x;
    assert (1.0 / (-x)) * (-x) == 1.0;
  }

  lemma GreaterInverse(value: real, high: real, room: real, inverse: real)
    requires room > 0.0 && 0.0 < inverse < high && value * high == room * inverse
    ensures value < room
  {
    assert room * (high - inverse) > 0.0;
    assert (room - value) * high > 0.0;
  }

  /** A positive point below `room` whose reciprocal is beyond the limit. */
  lemma BigReciprocal(room: real, limit: real) returns (value: real)
    requires room > 0.0
    ensures 0.0 < value < room && 1.0 / value > limit
  {
    var inverse := 1.0 / room;
    InverseOf(room);
    var high := (if limit > inverse then limit else inverse) + 1.0;
    InverseOf(high);
    value := 1.0 / high;
    GreaterInverse(value, high, room, inverse);
  }

  lemma UnboundedReciprocals(constraints: Constraints, limit: real)
    requires BoundsNoReciprocal(constraints) && SurroundsZero(constraints)
    ensures AnyUnder(constraints, true, limit) && AnyOver(constraints, true, limit)
  {
    if Admits(constraints, 0.0) {
      assert Under(true, 0.0, limit) && Over(true, 0.0, limit);
    } else {
      var right := if constraints.upper.Some? then constraints.upper.value.value else 1.0;
      var left := if constraints.lower.Some? then constraints.lower.value.value else -1.0;
      var up := BigReciprocal(right, limit);
      assert Admits(constraints, up) && Over(true, up, limit);
      var down := BigReciprocal(-left, -limit);
      InverseOf(down);
      assert Admits(constraints, -down) && Under(true, -down, limit);
    }
  }

  lemma ReciprocalSign(value: real)
    requires value != 0.0
    ensures value > 0.0 <==> 1.0 / value > 0.0
    ensures value < 0.0 <==> 1.0 / value < 0.0
  {
    assert (1.0 / value) * value == 1.0;
  }

  lemma ReciprocalsTightIffSurrounding(constraints: Constraints)
    requires BoundsNoReciprocal(constraints)
    ensures ReciprocalsAreTight(constraints) <==> SurroundsZero(constraints)
  {
    if SurroundsZero(constraints) {
      forall limit: real ensures AnyUnder(constraints, true, limit) && AnyOver(constraints, true, limit) {
        UnboundedReciprocals(constraints, limit);
      }
    }
    if ReciprocalsAreTight(constraints) {
      assert AnyUnder(constraints, true, 0.0) && AnyOver(constraints, true, 0.0);
      var down :| Admits(constraints, down) && Under(true, down, 0.0);
      var up :| Admits(constraints, up) && Over(true, up, 0.0);
      if down != 0.0 && up != 0.0 {
        ReciprocalSign(down);
        ReciprocalSign(up);
      }
    }
  }

  // ----- Exactness with bounds on the reciprocal -----

  type Limit = Option<Bound<real>>

  /** Non-zero values within two bounds whose reciprocals are within two others. */
  predicate InBoth(value: real, lower: Limit, upper: Limit, low: Limit, high: Limit) {
    value != 0.0 && WithinBounds(value, lower, upper) && WithinBounds(1.0 / value, low, high)
  }

  /** The lower bound on the value is attained, or not inclusive and the other bounds leave room just above it; without
      one, they leave room at minus infinity. */
  predicate ReachesLower(lower: Limit, upper: Limit, low: Limit, high: Limit) {
    match lower
    case None => (low.None? || low.value.value < 0.0) && (high.None? || high.value.value >= 0.0)
    case Some(Bound(b, true)) => InBoth(b, lower, upper, low, high)
    case Some(Bound(b, false)) =>
      && (upper.None? || b < upper.value.value)
      && if b == 0.0 then high.None?
         else (low.None? || low.value.value < 1.0 / b) && (high.None? || 1.0 / b <= high.value.value)
  }

  ghost predicate AnyBelow(limit: real, lower: Limit, upper: Limit, low: Limit, high: Limit) {
    exists value :: InBoth(value, lower, upper, low, high) && value < limit
  }

  ghost predicate LowerIsTight(lower: Limit, upper: Limit, low: Limit, high: Limit) {
    && (forall limit: real | lower.Some? ==> limit > lower.value.value :: AnyBelow(limit, lower, upper, low, high))
    && (lower.Some? && lower.value.inclusive ==> InBoth(lower.value.value, lower, upper, low, high))
  }

  lemma DoubleReciprocal(x: real)
    requires x != 0.0
    ensures 1.0 / x != 0.0 && 1.0 / (1.0 / x) == x
  {
    var y := 1.0 / x;
    assert y * x == 1.0;
    assert (1.0 / y) * y == 1.0;
    assert (1.0 / y) * y * x == x;
  }

  /** Of two numbers of one sign, the smaller has the greater reciprocal. */
  lemma ReciprocalsReverse(x: real, y: real)
    requires x < y && (x > 0.0 || y < 0.0)
    ensures 1.0 / y < 1.0 / x
  {
    var p, q := 1.0 / x, 1.0 / y;
    assert p * x == 1.0 && q * y == 1.0;
    ReciprocalSign(x);
    ReciprocalSign(y);
    PositiveProduct(p, q);
    assert p * q * (y - x) == p * (q * y) - q * (p * x);
    PositiveProduct(p * q, y - x);
  }

  lemma PositiveProduct(x: real, y: real)
    requires (x > 0.0 && y > 0.0) || (x < 0.0 && y < 0.0)
    ensures x * y > 0.0
  {
  }

  /** A value of the sign of `limit` is below its reciprocal exactly when the reciprocal of the value is above it. */
  lemma BelowReciprocal(value: real, limit: real)
    requires (value > 0.0 && limit > 0.0) || (value < 0.0 && limit < 0.0)
    ensures value < 1.0 / limit <==> 1.0 / value > limit
  {
    DoubleReciprocal(limit);
    DoubleReciprocal(value);
    ReciprocalSign(limit);
    ReciprocalSign(value);
    if value < 1.0 / limit {
      ReciprocalsReverse(value, 1.0 / limit);
    }
    if limit < 1.0 / value {
      ReciprocalsReverse(limit, 1.0 / value);
    }
  }

  function Min(x: real, y: real): real {
    if x < y then x else y
  }

  function MinBound(x: real, bound: Limit): real {
    if bound.Some? then Min(x, bound.value.value) else x
  }

  /** A bound on the reciprocal from below, as a bound on values of the sign of `x`. */
  function MinReciprocal(x: real, low: Limit, negative: bool): real {
    if low.Some? && low.value.value != 0.0 && (low.value.value < 0.0) == negative then Min(x, 1.0 / low.value.value)
      else x
  }

  /** Room at minus infinity. */
  lemma RoomFarBelow(limit: real, upper: Limit, low: Limit, high: Limit)
    requires ReachesLower(None, upper, low, high)
    ensures AnyBelow(limit, None, upper, low, high)
  {
    var value := MinReciprocal(MinBound(Min(limit, 0.0), upper), low, true) - 1.0;
    ReciprocalSign(value);
    if low.Some? {
      BelowReciprocal(value, low.value.value);
    }
    assert InBoth(value, None, upper, low, high);
  }

  /** Room just above a bound that is not inclusive. */
  lemma RoomJustAbove(limit: real, b: real, upper: Limit, low: Limit, high: Limit)
    requires ReachesLower(Some(Bound(b, false)), upper, low, high) && limit > b
    ensures AnyBelow(limit, Some(Bound(b, false)), upper, low, high)
  {
    var negative := b < 0.0;
    var room := MinBound(if negative then Min(limit, 0.0) else limit, upper);
    if b != 0.0 && low.Some? && low.value.value != 0.0 && (low.value.value < 0.0) == negative {
      ReciprocalSign(b);
      BelowReciprocal(b, low.value.value);
    }
    if low.Some? && low.value.value > 0.0 {
      ReciprocalSign(low.value.value);
    }
    var above := MinReciprocal(room, low, negative);
    JustAbove(b, above, limit, upper, low, high);
  }

  lemma JustAbove(b: real, above: real, limit: real, upper: Limit, low: Limit, high: Limit)
    requires ReachesLower(Some(Bound(b, false)), upper, low, high) && b < above <= limit
    requires (b < 0.0 ==> above <= 0.0) && (upper.Some? ==> above <= upper.value.value)
    requires low.Some? && low.value.value != 0.0 && (low.value.value < 0.0) == (b < 0.0) ==>
      above <= 1.0 / low.value.value
    ensures AnyBelow(limit, Some(Bound(b, false)), upper, low, high)
  {
    var value := (b + above) / 2.0;
    ReciprocalSign(value);
    if b != 0.0 {
      ReciprocalSign(b);
      ReciprocalsReverse(b, value);
    }
    if low.Some? && low.value.value != 0.0 && (low.value.value < 0.0) == (b < 0.0) {
      BelowReciprocal(value, low.value.value);
    }
    assert InBoth(value, Some(Bound(b, false)), upper, low, high);
  }

  /** The upper bound on the reciprocal keeps all values away from the lower bound. */
  lemma GapFromHigh(b: real, lower: Limit, upper: Limit, low: Limit, high: Limit) returns (limit: real)
    requires high.Some? && (lower.Some? ==> lower == Some(Bound(b, false)))
    requires if lower.None? then high.value.value < 0.0 else b == 0.0 || high.value.value < 1.0 / b
    ensures (lower.Some? ==> limit > b) && !AnyBelow(limit, lower, upper, low, high)
  {
    var h := high.value.value;
    if b != 0.0 {
      ReciprocalSign(b);
    }
    limit := b + 1.0;
    if lower.None? || b < 0.0 || h > 0.0 {
      limit := 1.0 / h;
      ReciprocalSign(h);
      if lower.Some? && b != 0.0 {
        BelowReciprocal(b, h);
      }
    }
    forall value | InBoth(value, lower, upper, low, high) ensures value >= limit {
      ReciprocalSign(value);
      if (value < 0.0) == (h < 0.0) && h != 0.0 {
        BelowReciprocal(value, h);
      }
    }
  }

  /** The lower bound on the reciprocal does. */
  lemma GapFromLow(b: real, lower: Limit, upper: Limit, low: Limit, high: Limit) returns (limit: real)
    requires low.Some? && (lower.Some? ==> lower == Some(Bound(b, false)))
    requires if lower.None? then low.value.value >= 0.0 else b != 0.0 && low.value.value >= 1.0 / b
    ensures (lower.Some? ==> limit > b) && !AnyBelow(limit, lower, upper, low, high)
  {
    limit := if lower.None? then 0.0 else if b < 0.0 then b / 2.0 else b + 1.0;
    forall value | InBoth(value, lower, upper, low, high) ensures value >= limit {
      ReciprocalSign(value);
      if lower.Some? && (value < 0.0) == (b < 0.0) {
        ReciprocalsReverse(b, value);
      }
    }
  }

  /** Where a bound that is not inclusive, or the lack of one, is not reached, there is a gap above it. */
  lemma GapAbove(lower: Limit, upper: Limit, low: Limit, high: Limit) returns (limit: real)
    requires !ReachesLower(lower, upper, low, high) && (lower.Some? ==> !lower.value.inclusive)
    ensures (lower.Some? ==> limit > lower.value.value) && !AnyBelow(limit, lower, upper, low, high)
  {
    var b := if lower.Some? then lower.value.value else 0.0;
    if lower.Some? && upper.Some? && b >= upper.value.value {
      limit := b + 1.0;
    } else if high.Some? && (if lower.None? then high.value.value < 0.0 else b == 0.0 || high.value.value < 1.0 / b) {
      limit := GapFromHigh(b, lower, upper, low, high);
    } else {
      limit := GapFromLow(b, lower, upper, low, high);
    }
  }

  lemma TightIffReached(lower: Limit, upper: Limit, low: Limit, high: Limit)
    ensures LowerIsTight(lower, upper, low, high) <==> ReachesLower(lower, upper, low, high)
  {
    if lower.Some? && lower.value.inclusive {
      var b := lower.value.value;
      forall limit: real | limit > b && InBoth(b, lower, upper, low, high)
        ensures AnyBelow(limit, lower, upper, low, high)
      {
      }
    } else if ReachesLower(lower, upper, low, high) {
      forall limit: real | lower.Some? ==> limit > lower.value.value ensures AnyBelow(limit, lower, upper, low, high) {
        if lower.Some? {
          RoomJustAbove(limit, lower.value.value, upper, low, high);
        } else {
          RoomFarBelow(limit, upper, low, high);
        }
      }
    } else {
      var limit := GapAbove(lower, upper, low, high);
    }
  }

  // The other bounds are lower bounds of mirrored or inverted values.

  function Mirrored(bound: Limit): Limit {
    if bound.Some? then Some(Bound(-bound.value.value, bound.value.inclusive)) else None
  }

  lemma MirroredIsBoth(value: real, lower: Limit, upper: Limit, low: Limit, high: Limit)
    ensures InBoth(-value, Mirrored(upper), Mirrored(lower), Mirrored(high), Mirrored(low)) <==>
            InBoth(value, lower, upper, low, high)
  {
    if value != 0.0 {
      var y := 1.0 / value;
      assert y * value == 1.0;
      assert (1.0 / -value) * -value == 1.0;
      assert 1.0 / -value == -y;
    }
  }

  lemma InvertedIsBoth(value: real, lower: Limit, upper: Limit, low: Limit, high: Limit)
    requires value != 0.0
    ensures InBoth(1.0 / value, low, high, lower, upper) <==> InBoth(value, lower, upper, low, high)
  {
    DoubleReciprocal(value);
  }

  /** Both bounds on the value are reached. */
  predicate ReachesValueBounds(c: Constraints) {
    var (low, high) := ReciprocalBounds(c);
    && ReachesLower(c.lower, c.upper, low, high)
    && ReachesLower(Mirrored(c.upper), Mirrored(c.lower), Mirrored(high), Mirrored(low))
  }

  /** Both bounds on the reciprocal are. */
  predicate ReachesReciprocalBounds(c: Constraints) {
    var (low, high) := ReciprocalBounds(c);
    && ReachesLower(low, high, c.lower, c.upper)
    && ReachesLower(Mirrored(high), Mirrored(low), Mirrored(c.upper), Mirrored(c.lower))
  }

  /** The admitted values of constraints that have a reciprocal range. */
  lemma AdmitsIsBoth(c: Constraints, value: real)
    requires c.reciprocalRange.Some?
    ensures Admits(c, value) <==> InBoth(value, c.lower, c.upper, ReciprocalBounds(c).0, ReciprocalBounds(c).1)
  {
  }

  lemma ValueLowerIsTight(c: Constraints)
    requires c.reciprocalRange.Some?
    ensures TightBelow(c, false, c.lower) <==>
      LowerIsTight(c.lower, c.upper, ReciprocalBounds(c).0, ReciprocalBounds(c).1)
  {
    var (low, high) := ReciprocalBounds(c);
    forall value ensures Admits(c, value) <==> InBoth(value, c.lower, c.upper, low, high) {
      AdmitsIsBoth(c, value);
    }
    forall limit ensures AnyUnder(c, false, limit) <==> AnyBelow(limit, c.lower, c.upper, low, high) {
      assert forall value :: Under(false, value, limit) <==> value < limit;
    }
    assert forall value, limit :: Meets(false, value, limit) <==> value == limit;
  }

  lemma ReciprocalLowerIsTight(c: Constraints)
    requires c.reciprocalRange.Some?
    ensures TightBelow(c, true, ReciprocalBounds(c).0) <==>
      LowerIsTight(ReciprocalBounds(c).0, ReciprocalBounds(c).1, c.lower, c.upper)
  {
    var (low, high) := ReciprocalBounds(c);
    forall limit ensures AnyUnder(c, true, limit) <==> AnyBelow(limit, low, high, c.lower, c.upper) {
      if value :| Admits(c, value) && Under(true, value, limit) {
        InvertedIsBoth(value, c.lower, c.upper, low, high);
      }
      if value :| InBoth(value, low, high, c.lower, c.upper) && value < limit {
        InvertedIsBoth(value, low, high, c.lower, c.upper);
        DoubleReciprocal(value);
        assert Admits(c, 1.0 / value) && Under(true, 1.0 / value, limit);
      }
    }
    forall limit ensures AnyAt(c, true, limit) <==> InBoth(limit, low, high, c.lower, c.upper) {
      if value :| Admits(c, value) && Meets(true, value, limit) {
        InvertedIsBoth(value, c.lower, c.upper, low, high);
      }
      if InBoth(limit, low, high, c.lower, c.upper) {
        InvertedIsBoth(limit, low, high, c.lower, c.upper);
        DoubleReciprocal(limit);
        assert Admits(c, 1.0 / limit) && Meets(true, 1.0 / limit, limit);
      }
    }
  }

  /** The constraints on the opposite value. */
  function Opposite(c: Constraints): Constraints {
    ParameterConstraints(Mirrored(c.upper), Mirrored(c.lower), c.nonZero,
                         Some((Mirrored(ReciprocalBounds(c).1), Mirrored(ReciprocalBounds(c).0))))
  }

  lemma OppositeAdmits(c: Constraints, value: real)
    requires c.reciprocalRange.Some?
    ensures Admits(Opposite(c), -value) <==> Admits(c, value)
  {
    MirroredIsBoth(value, c.lower, c.upper, ReciprocalBounds(c).0, ReciprocalBounds(c).1);
  }

  lemma OppositeMeasures(reciprocal: bool, value: real, limit: real)
    ensures Under(reciprocal, -value, -limit) <==> Over(reciprocal, value, limit)
    ensures Meets(reciprocal, -value, -limit) <==> Meets(reciprocal, value, limit)
  {
    if value != 0.0 {
      assert (1.0 / value) * value == 1.0 && (1.0 / -value) * -value == 1.0;
      assert 1.0 / -value == -(1.0 / value);
    }
  }

  lemma OppositeAny(c: Constraints, reciprocal: bool, limit: real)
    requires c.reciprocalRange.Some?
    ensures AnyUnder(Opposite(c), reciprocal, -limit) <==> AnyOver(c, reciprocal, limit)
    ensures AnyAt(Opposite(c), reciprocal, -limit) <==> AnyAt(c, reciprocal, limit)
  {
    forall value
      ensures Admits(Opposite(c), -value) <==> Admits(c, value)
      ensures Under(reciprocal, -value, -limit) <==> Over(reciprocal, value, limit)
      ensures Meets(reciprocal, -value, -limit) <==> Meets(reciprocal, value, limit)
    {
      OppositeAdmits(c, value);
      OppositeMeasures(reciprocal, value, limit);
    }
    if value :| Admits(Opposite(c), value) && Under(reciprocal, value, -limit) {
      assert Admits(c, -value) && Over(reciprocal, -value, limit) by { assert value == -(-value); }
    }
    if value :| Admits(Opposite(c), value) && Meets(reciprocal, value, -limit) {
      assert Admits(c, -value) && Meets(reciprocal, -value, limit) by { assert value == -(-value); }
    }
  }

  /** An upper bound is tight exactly when the mirrored lower bound is. */
  lemma AboveIsOppositeBelow(c: Constraints, reciprocal: bool, upper: Limit)
    requires c.reciprocalRange.Some?
    ensures TightAbove(c, reciprocal, upper) <==> TightBelow(Opposite(c), reciprocal, Mirrored(upper))
  {
    forall limit: real
      ensures AnyUnder(Opposite(c), reciprocal, -limit) <==> AnyOver(c, reciprocal, limit)
      ensures AnyAt(Opposite(c), reciprocal, -limit) <==> AnyAt(c, reciprocal, limit)
    {
      OppositeAny(c, reciprocal, limit);
    }
    if TightAbove(c, reciprocal, upper) {
      forall limit: real | upper.Some? ==> limit > -upper.value.value ensures AnyUnder(Opposite(c), reciprocal, limit) {
        assert AnyOver(c, reciprocal, -limit) && limit == -(-limit);
      }
    }
    if TightBelow(Opposite(c), reciprocal, Mirrored(upper)) {
      forall limit: real | upper.Some? ==> limit < upper.value.value ensures AnyOver(c, reciprocal, limit) {
        assert AnyUnder(Opposite(c), reciprocal, -limit);
      }
    }
  }

  /** The four bounds are tight exactly when each is reached. */
  lemma TightIffAllReached(c: Constraints)
    requires c.reciprocalRange.Some?
    ensures BoundsAreTight(c) <==> ReachesValueBounds(c)
    ensures ReciprocalsAreTight(c) <==> ReachesReciprocalBounds(c)
  {
    var (low, high) := ReciprocalBounds(c);
    ValueLowerIsTight(c);
    ReciprocalLowerIsTight(c);
    ValueLowerIsTight(Opposite(c));
    ReciprocalLowerIsTight(Opposite(c));
    AboveIsOppositeBelow(c, false, c.upper);
    AboveIsOppositeBelow(c, true, high);
    TightIffReached(c.lower, c.upper, low, high);
    TightIffReached(low, high, c.lower, c.upper);
    TightIffReached(Mirrored(c.upper), Mirrored(c.lower), Mirrored(high), Mirrored(low));
    TightIffReached(Mirrored(high), Mirrored(low), Mirrored(c.upper), Mirrored(c.lower));
  }

  // ----- In summary -----

  /** The bounds on the value say all that there is to say about the value. */
  predicate StatesValueBounds(c: Constraints) {
    if c.reciprocalRange.Some? then ReachesValueBounds(c) else HasRoom(c) && AttainsBounds(c)
  }

  /** And so do those on the reciprocal; without any, zero must be surrounded. */
  predicate StatesReciprocalBounds(c: Constraints) {
    if c.reciprocalRange.Some? then ReachesReciprocalBounds(c) else SurroundsZero(c)
  }

  /** When the test is exact, read off the provided constraints: it decides the inclusions that bound no reciprocal
      exactly when the bounds on the value are stated in full, and all inclusions exactly when those on the reciprocal
      are as well. */
  lemma SubsetIsExact(provided: Constraints)
    ensures (forall required | BoundsNoReciprocal(required) :: Decides(provided, required)) <==>
      StatesValueBounds(provided)
    ensures (forall required :: Decides(provided, required)) <==>
            StatesValueBounds(provided) && StatesReciprocalBounds(provided)
  {
    SubsetIsExactIffTight(provided);
    if provided.reciprocalRange.Some? {
      TightIffAllReached(provided);
    } else {
      TightIffAttained(provided);
      ReciprocalsTightIffSurrounding(provided);
    }
  }

  /** Two inclusions that are not recognised: of an excluded zero at an inclusive bound, and of a reciprocal bound that
      follows from a bound. */
  lemma SubsetIsConservative(value: real)
    ensures
      var provided := ParameterConstraints(Some(Bound(0.0, true)), None, true, None);
      var required := ParameterConstraints(Some(Bound(0.0, false)), None, false, None);
      !IsSubsetOf(provided, required) && (Admits(provided, value) ==> Admits(required, value))
    ensures
      var provided := ParameterConstraints(Some(Bound(1.0, true)), None, false, None);
      var required := ParameterConstraints(None, None, false, Some((None, Some(Bound(1.0, true)))));
      !IsSubsetOf(provided, required) && (Admits(provided, value) ==> Admits(required, value))
  {
    if value >= 1.0 {
      ReciprocalShrinks(value);
    }
  }

  lemma ReciprocalShrinks(value: real)
    requires value >= 1.0
    ensures 1.0 / value <= 1.0
  {
    var reciprocal := 1.0 / value;
    assert reciprocal * value == 1.0 && reciprocal > 0.0;
    assert 1.0 - reciprocal == reciprocal * (value - 1.0);
  }
}
