// Numbers with the special values of IEEE 754 (two zeros, two infinities, not-a-number) but exact finite values: what
// the likeness conditions of the discrete closure mean for a number system whose `==` identifies the two zeros.
module SignedZeros {
  import opened ValueIr
  import opened DiscreteGraph
  import opened DiscreteClosure

  /** `minus` is the sign of a zero; any other finite number has its own. */
  datatype Number = Finite(value: real, minus: bool) | Infinite(minus: bool) | NotANumber
  {
    predicate Negative() {
      match this
      case Finite(value, minus) => value < 0.0 || (value == 0.0 && minus)
      case Infinite(minus) => minus
      case NotANumber => false
    }

    predicate IsZero() {
      Finite? && value == 0.0
    }
  }

  function Signed(value: real, minus: bool): Number {
    Finite(value, if value == 0.0 then minus else value < 0.0)
  }

  function Minus(x: Number): Number {
    match x
    case Finite(value, _) => Signed(-value, !x.Negative())
    case Infinite(minus) => Infinite(!minus)
    case NotANumber => NotANumber
  }

  function Plus(x: Number, y: Number): Number {
    match (x, y)
    case (Finite(v, _), Finite(w, _)) => Signed(v + w, x.Negative() && y.Negative())
    case (Infinite(m), Infinite(n)) => if m == n then x else NotANumber
    case (Infinite(_), Finite(_, _)) => x
    case (Finite(_, _), Infinite(_)) => y
    case _ => NotANumber
  }

  function Times(x: Number, y: Number): Number {
    var minus := x.Negative() != y.Negative();
    if x.NotANumber? || y.NotANumber? then NotANumber
    else if x.Finite? && y.Finite? then Signed(x.value * y.value, minus)
    else if x.IsZero() || y.IsZero() then NotANumber
    else Infinite(minus)
  }

  function Over(x: Number, y: Number): Number {
    var minus := x.Negative() != y.Negative();
    if x.NotANumber? || y.NotANumber? then NotANumber
    else if x.Infinite? then if y.Infinite? then NotANumber else Infinite(minus)
    else if y.Infinite? then Signed(0.0, minus)
    else if y.IsZero() then if x.IsZero() then NotANumber else Infinite(minus)
    else Signed(x.value / y.value, minus)
  }

  predicate AtMost(x: Number, y: Number) {
    match (x, y)
    case (Finite(v, _), Finite(w, _)) => v <= w
    case (Infinite(m), Infinite(n)) => m || !n
    case (Infinite(m), Finite(_, _)) => m
    case (Finite(_, _), Infinite(n)) => !n
    case _ => false
  }

  function Apply(kind: BinaryKind, x: Number, y: Number): Number {
    match kind
    case Add => Plus(x, y)
    case Sub => Plus(x, Minus(y))
    case Mul => Times(x, y)
    case Div => Over(x, y)
    case LessEqual => if AtMost(x, y) then Finite(1.0, false) else Finite(0.0, false)
  }

  /** Numeric `==`: the zeros are equal, and not-a-number is equal to nothing. */
  predicate Equal(x: Number, y: Number) {
    AtMost(x, y) && AtMost(y, x)
  }

  function Numbers(): DiscreteClosure.Numbers<Number> {
    DiscreteClosure.Numbers(Arithmetic(Finite(0.0, false), Apply, Minus), Equal, (x: Number) => x.Finite?)
  }

  /** Numerically equal, or both not-a-number. */
  predicate Alike(x: Number, y: Number) {
    if x.Finite? && y.Finite? then x.value == y.value else x == y
  }

  lemma AlikeIsEqualOrIdentical(x: Number, y: Number)
    ensures Alike(x, y) <==> Equal(x, y) || x == y
  {
  }

  // ----- The rules of sign -----

  /** A finite number other than zero has the sign of its value. */
  predicate IsCanonical(x: Number) {
    x.Finite? && x.value != 0.0 ==> (x.minus <==> x.value < 0.0)
  }

  /** Negative zero is neutral for sums. */
  lemma NegativeZeroIsNeutral(x: Number)
    requires IsCanonical(x)
    ensures Plus(x, Finite(0.0, true)) == x && Plus(Finite(0.0, true), x) == x
  {
    if x.Finite? { assert x.value + 0.0 == x.value; }
  }

  /** The sum of opposites is positive zero, and opposite infinities have none. */
  lemma OppositesCancel(x: Number)
    requires IsCanonical(x)
    ensures Plus(x, Minus(x)) == if x.Finite? then Finite(0.0, false) else NotANumber
    ensures x.Infinite? ==> Plus(x, x) == x
  {
    if x.Finite? { assert x.value + -x.value == 0.0; }
  }

  /** A product does not depend on the order, and one is neutral for it. */
  lemma ProductRules(x: Number, y: Number)
    requires IsCanonical(x)
    ensures Times(x, y) == Times(y, x) && Times(x, Finite(1.0, false)) == x
  {
    if x.Finite? && y.Finite? { assert x.value * y.value == y.value * x.value; }
    if x.Finite? { assert x.value * 1.0 == x.value; }
  }

  /** A finite quotient times its divisor is the dividend, sign included. */
  lemma QuotientRules(x: Number, y: Number)
    requires IsCanonical(x) && x.Finite? && y.Finite? && y.value != 0.0
    ensures Times(Over(x, y), y) == x
  {
    var v, w := x.value, y.value;
    var q := v / w;
    assert q * w == v;
    if v == 0.0 { assert q == 0.0; }
    if v != 0.0 { SignOfQuotient(q, w); }
  }

  lemma SignOfQuotient(q: real, w: real)
    requires q * w != 0.0
    ensures q != 0.0 && (q * w < 0.0 <==> (q < 0.0) != (w < 0.0))
  {
    if q < 0.0 && w < 0.0 { assert (-q) * (-w) > 0.0; }
  }

  /** Dividing by a zero is multiplying by an infinity of its sign, and the other way round. */
  lemma ReciprocalRules(x: Number, minus: bool)
    requires IsCanonical(x)
    ensures Over(x, Finite(0.0, minus)) == if x.Infinite? then Infinite(x.minus != minus) else Times(x, Infinite(minus))
    ensures Over(x, Infinite(minus)) == if x.Infinite? then NotANumber else Times(x, Finite(0.0, minus))
  {
  }

  // ----- Which operations respect the likeness -----

  lemma PlusRespects(w: Number, x: Number, y: Number, z: Number)
    requires Alike(w, x) && Alike(y, z)
    ensures Alike(Plus(w, y), Plus(x, z))
  {
  }

  lemma MinusRespects(x: Number, y: Number)
    requires Alike(x, y)
    ensures Alike(Minus(x), Minus(y))
  {
  }

  lemma TimesRespects(w: Number, x: Number, y: Number, z: Number)
    requires Alike(w, x) && Alike(y, z)
    ensures Alike(Times(w, y), Times(x, z))
  {
  }

  lemma AtMostRespects(w: Number, x: Number, y: Number, z: Number)
    requires Alike(w, x) && Alike(y, z)
    ensures AtMost(w, y) == AtMost(x, z)
  {
  }

  lemma OverRespects(w: Number, x: Number, y: Number, z: Number)
    requires Alike(w, x) && Alike(y, z) && !y.IsZero()
    ensures Alike(Over(w, y), Over(x, z))
  {
  }

  lemma ApplyRespects(kind: BinaryKind, w: Number, x: Number, y: Number, z: Number)
    requires Alike(w, x) && Alike(y, z) && (kind == Div ==> !y.IsZero())
    ensures Alike(Apply(kind, w, y), Apply(kind, x, z))
  {
    match kind {
      case Add => PlusRespects(w, x, y, z);
      case Sub => MinusRespects(y, z); PlusRespects(w, x, Minus(y), Minus(z));
      case Mul => TimesRespects(w, x, y, z);
      case Div => OverRespects(w, x, y, z);
      case LessEqual => AtMostRespects(w, x, y, z);
    }
  }

  /** Division by the two zeros gives the two infinities. */
  lemma DivisionSeparatesZeros()
    ensures Alike(Finite(0.0, false), Finite(0.0, true))
    ensures !Alike(Apply(Div, Finite(1.0, false), Finite(0.0, false)),
      Apply(Div, Finite(1.0, false), Finite(0.0, true)))
  {
  }

  /** Division is the one operation that does not respect numeric equality. */
  lemma AllButDivisionRespect(kind: OpKind)
    ensures KindRespects(Numbers().ar, Alike, kind) <==> kind != BinaryOp(Div)
  {
    DivisionSeparatesZeros();
    match kind {
      case BinaryOp(binary) =>
        if binary != Div {
          forall w, x, y, z | Alike(w, x) && Alike(y, z) ensures Alike(Apply(binary, w, y), Apply(binary, x, z)) {
            ApplyRespects(binary, w, x, y, z);
          }
          assert BinaryRespects(Numbers().ar, Alike, binary);
        } else {
          assert !Alike(Numbers().ar.binary(Div, Finite(1.0, false), Finite(0.0, false)),
                        Numbers().ar.binary(Div, Finite(1.0, false), Finite(0.0, true)));
          assert !BinaryRespects(Numbers().ar, Alike, Div);
        }
      case NegateOp =>
        forall x, y | Alike(x, y) ensures Alike(Minus(x), Minus(y)) {
          MinusRespects(x, y);
        }
        assert NegateRespects(Numbers().ar, Alike);
    }
  }

  /** So the frontier misses no driver, up to numeric equality, of any island whose iteration operations are of the
      given kinds if and only if division is not among them. */
  lemma NonInterferenceIffNoDivision(kinds: set<OpKind>)
    ensures (forall f: FrontierCase<Number> | UsesOnly(f.ir.program.iterationOps, kinds) ::
               NeverInterferes(Numbers().ar, Alike, f))
            <==> BinaryOp(Div) !in kinds
  {
    NonInterferenceIffKindsRespect(Numbers().ar, Alike, kinds);
    forall kind ensures KindRespects(Numbers().ar, Alike, kind) <==> kind != BinaryOp(Div) {
      AllButDivisionRespect(kind);
    }
  }

  lemma ClosureDivisionRespects()
    ensures DivisionRespects(Numbers(), Alike)
  {
    forall w, x, y, z | Alike(w, x) && Alike(y, z) && !Equal(y, Finite(0.0, false))
      ensures Alike(Apply(Div, w, y), Apply(Div, x, z))
    {
      ApplyRespects(Div, w, x, y, z);
    }
  }

  /** And the closure's own condition holds for exactly the programs that do not divide: the closure itself divides, but
      only by what is not zero. */
  lemma AdmissibleIffNoDivision(ops: seq<ValueOp>)
    ensures Admissible(Numbers(), Alike, ops) <==> forall k | 0 <= k < |ops| :: KindOf(ops[k]) != BinaryOp(Div)
  {
    forall kind ensures KindRespects(Numbers().ar, Alike, kind) <==> kind != BinaryOp(Div) {
      AllButDivisionRespect(kind);
    }
    forall k | 0 <= k < |ops| ensures OpRespects(Numbers().ar, Alike, ops[k]) <==> KindOf(ops[k]) != BinaryOp(Div) {
      assert OpRespects(Numbers().ar, Alike, ops[k]) <==> KindRespects(Numbers().ar, Alike, KindOf(ops[k]));
    }
    assert KindRespects(Numbers().ar, Alike, BinaryOp(Add)) && KindRespects(Numbers().ar, Alike, BinaryOp(Mul));
    ClosureDivisionRespects();
    forall x, y ensures Equal(x, y) ==> Alike(x, y) {
      AlikeIsEqualOrIdentical(x, y);
    }
  }
}
