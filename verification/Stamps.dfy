// Stamping circuit elements into a linear system, and grounding it (the stamp functions of
// hynergy-engine/src/compile/definition.rs and IslandUnknownLayout in compile/island.rs).
// Values are real numbers.
module Stamps {
  import opened Support

  datatype Unknown = Node(id: nat) | Branch(index: nat)

  datatype Entry = Entry(row: Unknown, column: Unknown, amount: real)

  datatype Injection = Injection(row: Unknown, amount: real)

  datatype System = System(matrix: seq<Entry>, rhs: seq<Injection>)

  /** An assignment of voltages to nodes and currents to branches. */
  type Assignment = Unknown -> real

  ghost function RowProduct(matrix: seq<Entry>, x: Assignment, row: Unknown): real {
    if matrix == [] then 0.0
    else
      var last := matrix[|matrix| - 1];
      RowProduct(matrix[..|matrix| - 1], x, row) + (if last.row == row then last.amount * x(last.column) else 0.0)
  }

  ghost function RowSource(rhs: seq<Injection>, row: Unknown): real {
    if rhs == [] then 0.0
    else
      var last := rhs[|rhs| - 1];
      RowSource(rhs[..|rhs| - 1], row) + (if last.row == row then last.amount else 0.0)
  }

  /** Left-hand side minus right-hand side of one row. In a node row: the current leaving the node. */
  ghost function Residual(s: System, x: Assignment, row: Unknown): real {
    RowProduct(s.matrix, x, row) - RowSource(s.rhs, row)
  }

  /** The unknowns that a system mentions. */
  ghost function Unknowns(s: System): set<Unknown> {
    (set e | e in s.matrix :: e.row) + (set e | e in s.matrix :: e.column) + (set i | i in s.rhs :: i.row)
  }

  lemma PushedEntryUnknowns(s: System, entry: Entry)
    ensures Unknowns(s.(matrix := s.matrix + [entry])) == Unknowns(s) + {entry.row, entry.column}
  {
    var after := s.(matrix := s.matrix + [entry]);
    assert forall e :: e in after.matrix <==> e in s.matrix || e == entry;
    assert (set e | e in after.matrix :: e.row) == (set e | e in s.matrix :: e.row) + {entry.row};
    assert (set e | e in after.matrix :: e.column) == (set e | e in s.matrix :: e.column) + {entry.column};
  }

  lemma PushedInjectionUnknowns(s: System, injection: Injection)
    ensures Unknowns(s.(rhs := s.rhs + [injection])) == Unknowns(s) + {injection.row}
  {
    var after := s.(rhs := s.rhs + [injection]);
    assert forall i :: i in after.rhs <==> i in s.rhs || i == injection;
    assert (set i | i in after.rhs :: i.row) == (set i | i in s.rhs :: i.row) + {injection.row};
  }

  // ----- Element laws -----

  /** The difference of two systems is an element that carries `current` from one node to another. */
  ghost predicate AddsCurrent(before: System, after: System, from: Unknown, to: Unknown, current: Assignment -> real) {
    forall x: Assignment, row :: AddsCurrentAt(before, after, from, to, current, x, row)
  }

  ghost predicate AddsCurrentAt(
      before: System, after: System, from: Unknown, to: Unknown, current: Assignment -> real, x: Assignment,
      row: Unknown)
  {
    Residual(after, x, row) ==
    Residual(before, x, row) + (if row == from then current(x) else 0.0) - (if row == to then current(x) else 0.0)
  }

  /** As `AddsCurrent`, where the current is the unknown of a branch that obeys `equation` = 0. */
  ghost predicate AddsBranch(
      before: System, after: System, from: Unknown, to: Unknown, branch: Unknown, equation: Assignment -> real)
  {
    forall x: Assignment, row :: AddsBranchAt(before, after, from, to, branch, equation, x, row)
  }

  ghost predicate AddsBranchAt(
      before: System, after: System, from: Unknown, to: Unknown, branch: Unknown, equation: Assignment -> real,
      x: Assignment, row: Unknown)
  {
    Residual(after, x, row) ==
    Residual(before, x, row) + (if row == from then x(branch) else 0.0) - (if row == to then x(branch) else 0.0)
    + (if row == branch then equation(x) else 0.0)
  }

  /** The product of a matrix value and one unknown. */
  function Product(value: real, unknown: Unknown): Assignment -> real {
    (x: Assignment) => value * x(unknown)
  }

  function Minus(f: Assignment -> real, g: Assignment -> real): Assignment -> real {
    (x: Assignment) => f(x) - g(x)
  }

  /** The current of a conductance, or of a source controlled by the voltage from `a` to `b`. */
  function Conducted(a: Unknown, b: Unknown, conductance: real): Assignment -> real {
    Minus(Product(conductance, a), Product(conductance, b))
  }

  function Constant(current: real): Assignment -> real {
    (x: Assignment) => current
  }

  function Voltage(positive: Unknown, negative: Unknown): Assignment -> real {
    (x: Assignment) => x(positive) - x(negative)
  }

  /** What a voltage source imposes on its branch row. */
  function VoltageLaw(positive: Unknown, negative: Unknown, voltage: real): Assignment -> real {
    Minus(Voltage(positive, negative), Constant(voltage))
  }

  /** What a voltage-controlled voltage source imposes on its branch row. */
  function GainLaw(
      outputPositive: Unknown, outputNegative: Unknown, controlPositive: Unknown, controlNegative: Unknown,
      gain: real): Assignment -> real
  {
    Minus(Voltage(outputPositive, outputNegative), Conducted(controlPositive, controlNegative, gain))
  }

  /** The difference of two systems is one term in one row. */
  ghost predicate AddsTerm(before: System, after: System, row: Unknown, term: Assignment -> real, positive: bool) {
    forall x: Assignment, at ::
      Residual(after, x, at) ==
        Residual(before, x, at) + (if at != row then 0.0 else if positive then term(x) else -term(x))
  }

  /** Two terms into one node row and their opposites into another are a current. */
  lemma FourTermsAreCurrent(s0: System, s1: System, s2: System, s3: System, s4: System, from: Unknown, to: Unknown,
                            f: Assignment -> real, g: Assignment -> real)
    requires (AddsTerm(s0, s1, from, f, true) && AddsTerm(s1, s2, to, f, false) && AddsTerm(s2, s3, from, g, false)
      && AddsTerm(s3, s4, to, g, true))
             || (AddsTerm(s0, s1, from, f, true) && AddsTerm(s1, s2, from, g, false) && AddsTerm(s2, s3, to, f, false)
               && AddsTerm(s3, s4, to, g, true))
    ensures AddsCurrent(s0, s4, from, to, Minus(f, g))
  {
    forall x: Assignment, row ensures AddsCurrentAt(s0, s4, from, to, Minus(f, g), x, row) {
      assert Residual(s4, x, row) - Residual(s3, x, row) == if row != to then 0.0 else g(x);
    }
  }

  lemma UnitTermsAreBranch(
      s0: System, s1: System, s2: System, s3: System, s4: System, from: Unknown, to: Unknown, branch: Unknown)
    requires AddsTerm(s0, s1, from, Product(1.0, branch), true) && AddsTerm(s1, s2, to, Product(1.0, branch), false)
    requires AddsTerm(s2, s3, branch, Product(1.0, from), true) && AddsTerm(s3, s4, branch, Product(1.0, to), false)
    ensures AddsBranch(s0, s4, from, to, branch, Voltage(from, to))
  {
    forall x: Assignment, row ensures AddsBranchAt(s0, s4, from, to, branch, Voltage(from, to), x, row) {
      assert Product(1.0, branch)(x) == x(branch) && Product(1.0, from)(x) == x(from) && Product(1.0, to)(x) == x(to);
      assert Residual(s4, x, row) - Residual(s3, x, row) == if row != branch then 0.0 else -x(to);
    }
  }

  lemma SixTermsAreBranch(s0: System, s4: System, s5: System, s6: System, from: Unknown, to: Unknown, branch: Unknown,
                          voltage: Assignment -> real, f: Assignment -> real, g: Assignment -> real)
    requires AddsBranch(s0, s4, from, to, branch, voltage)
    requires AddsTerm(s4, s5, branch, f, false) && AddsTerm(s5, s6, branch, g, true)
    ensures AddsBranch(s0, s6, from, to, branch, Minus(voltage, Minus(f, g)))
  {
    forall x: Assignment, row ensures AddsBranchAt(s0, s6, from, to, branch, Minus(voltage, Minus(f, g)), x, row) {
      assert AddsBranchAt(s0, s4, from, to, branch, voltage, x, row);
      assert Residual(s6, x, row) - Residual(s5, x, row) == if row != branch then 0.0 else g(x);
    }
  }

  lemma PushedEntry(matrix: seq<Entry>, entry: Entry, x: Assignment, row: Unknown)
    ensures RowProduct(matrix + [entry], x, row) ==
            RowProduct(matrix, x, row) + (if entry.row == row then entry.amount * x(entry.column) else 0.0)
  {
    assert (matrix + [entry])[..|matrix|] == matrix;
  }

  lemma PushedInjection(rhs: seq<Injection>, injection: Injection, row: Unknown)
    ensures RowSource(rhs + [injection], row) ==
      RowSource(rhs, row) + (if injection.row == row then injection.amount else 0.0)
  {
    assert (rhs + [injection])[..|rhs|] == rhs;
  }

  lemma NegativeProduct(a: real, y: real)
    ensures (a * -1.0) * y == -(a * y) && (a * 1.0) * y == a * y
  {
  }

  class SystemBuilder {
    var system: System

    constructor ()
      ensures system == System([], [])
      ensures forall nodes :: Lawful(system, nodes)
      ensures forall layout :: Known(layout, system)
    {
      system := System([], []);
      new;
      forall nodes ensures Lawful(system, nodes) {
        EmptySystemIsLawful(nodes);
      }
    }

    /** `add_matrix` with scale 1 or -1. */
    method AddMatrix(row: Unknown, column: Unknown, value: real, positive: bool)
      modifies this
      ensures AddsTerm(old(system), system, row, Product(value, column), positive)
      ensures Unknowns(system) == old(Unknowns(system)) + {row, column}
    {
      var scale := if positive then 1.0 else -1.0;
      var entry := Entry(row, column, value * scale);
      forall x: Assignment, at: Unknown
        ensures RowProduct(system.matrix + [entry], x, at) == RowProduct(system.matrix, x, at)
                + (if at != row then 0.0 else if positive then Product(value, column)(x)
                  else -Product(value, column)(x))
      {
        PushedEntry(system.matrix, entry, x, at);
        NegativeProduct(value, x(column));
      }
      PushedEntryUnknowns(system, entry);
      system := system.(matrix := system.matrix + [entry]);
    }

    /** `add_rhs` with scale 1 or -1. */
    method AddRhs(row: Unknown, value: real, positive: bool)
      modifies this
      ensures AddsTerm(old(system), system, row, Constant(value), !positive)
      ensures Unknowns(system) == old(Unknowns(system)) + {row}
    {
      var scale := if positive then 1.0 else -1.0;
      var injection := Injection(row, value * scale);
      forall at: Unknown
        ensures RowSource(system.rhs + [injection], at) == RowSource(system.rhs, at)
                + (if at != row then 0.0 else if positive then value else -value)
      {
        PushedInjection(system.rhs, injection, at);
      }
      PushedInjectionUnknowns(system, injection);
      system := system.(rhs := system.rhs + [injection]);
    }

    method StampConductance(a: Unknown, b: Unknown, conductance: real)
      modifies this
      ensures AddsCurrent(old(system), system, a, b, Conducted(a, b, conductance))
      ensures Unknowns(system) == old(Unknowns(system)) + {a, b}
    {
      ghost var s0 := system;
      AddMatrix(a, a, conductance, true);
      ghost var s1 := system;
      AddMatrix(b, a, conductance, false);
      ghost var s2 := system;
      AddMatrix(a, b, conductance, false);
      ghost var s3 := system;
      AddMatrix(b, b, conductance, true);
      FourTermsAreCurrent(s0, s1, s2, s3, system, a, b, Product(conductance, a), Product(conductance, b));
    }

    method StampCurrentSource(from: Unknown, to: Unknown, current: real)
      modifies this
      ensures AddsCurrent(old(system), system, from, to, Constant(current))
      ensures Unknowns(system) == old(Unknowns(system)) + {from, to}
    {
      AddRhs(from, current, false);
      AddRhs(to, current, true);
    }

    method StampVccs(
        outputPositive: Unknown, outputNegative: Unknown, controlPositive: Unknown, controlNegative: Unknown,
        transconductance: real)
      modifies this
      ensures AddsCurrent(old(system), system, outputPositive, outputNegative,
        Conducted(controlPositive, controlNegative, transconductance))
      ensures Unknowns(system) ==
        old(Unknowns(system)) + {outputPositive, outputNegative, controlPositive, controlNegative}
    {
      ghost var s0 := system;
      AddMatrix(outputPositive, controlPositive, transconductance, true);
      ghost var s1 := system;
      AddMatrix(outputPositive, controlNegative, transconductance, false);
      ghost var s2 := system;
      AddMatrix(outputNegative, controlPositive, transconductance, false);
      ghost var s3 := system;
      AddMatrix(outputNegative, controlNegative, transconductance, true);
      FourTermsAreCurrent(s0, s1, s2, s3, system, outputPositive, outputNegative,
                          Product(transconductance, controlPositive), Product(transconductance, controlNegative));
    }

    /** The four unit entries that connect a branch, shared by the two voltage sources. */
    method StampBranch(positive: Unknown, negative: Unknown, branch: Unknown)
      modifies this
      ensures AddsBranch(old(system), system, positive, negative, branch, Voltage(positive, negative))
      ensures Unknowns(system) == old(Unknowns(system)) + {positive, negative, branch}
    {
      ghost var s0 := system;
      AddMatrix(positive, branch, 1.0, true);
      ghost var s1 := system;
      AddMatrix(negative, branch, 1.0, false);
      ghost var s2 := system;
      AddMatrix(branch, positive, 1.0, true);
      ghost var s3 := system;
      AddMatrix(branch, negative, 1.0, false);
      UnitTermsAreBranch(s0, s1, s2, s3, system, positive, negative, branch);
    }

    method StampVoltageSource(positive: Unknown, negative: Unknown, branch: Unknown, voltage: real)
      modifies this
      ensures AddsBranch(old(system), system, positive, negative, branch, VoltageLaw(positive, negative, voltage))
      ensures Unknowns(system) == old(Unknowns(system)) + {positive, negative, branch}
    {
      StampBranch(positive, negative, branch);
      ghost var s4 := system;
      AddRhs(branch, voltage, true);
      forall x: Assignment, row
        ensures AddsBranchAt(old(system), system, positive, negative, branch, VoltageLaw(positive, negative, voltage),
          x, row)
      {
        assert AddsBranchAt(old(system), s4, positive, negative, branch, Voltage(positive, negative), x, row);
      }
    }

    method StampVcvs(
        outputPositive: Unknown, outputNegative: Unknown, controlPositive: Unknown, controlNegative: Unknown,
        branch: Unknown, gain: real)
      modifies this
      ensures AddsBranch(old(system), system, outputPositive, outputNegative, branch,
                         GainLaw(outputPositive, outputNegative, controlPositive, controlNegative, gain))
      ensures Unknowns(system) ==
        old(Unknowns(system)) + {outputPositive, outputNegative, controlPositive, controlNegative, branch}
    {
      ghost var s0 := system;
      StampBranch(outputPositive, outputNegative, branch);
      ghost var s4 := system;
      AddMatrix(branch, controlPositive, gain, false);
      ghost var s5 := system;
      AddMatrix(branch, controlNegative, gain, true);
      SixTermsAreBranch(s0, s4, s5, system, outputPositive, outputNegative, branch,
        Voltage(outputPositive, outputNegative),
                        Product(gain, controlPositive), Product(gain, controlNegative));
    }

    /** Backward-Euler capacitor: a conductance C/dt with the previous voltage as history current. Its current is
        proportional to the change of its voltage. */
    method StampCapacitor(
        positive: Unknown, negative: Unknown, capacitance: real, timestep: real, previousVoltage: real)
      requires timestep != 0.0
      modifies this
      ensures AddsCurrent(old(system), system, positive, negative,
                          ChangeLaw(positive, negative, capacitance / timestep, previousVoltage))
      ensures Unknowns(system) == old(Unknowns(system)) + {positive, negative}
    {
      ghost var before := system;
      var conductance := capacitance / timestep;
      StampCompanion(positive, negative, conductance, conductance * previousVoltage);
      CompanionFollowsChange(before, system, positive, negative, conductance, previousVoltage);
    }

    method StampCompanion(positive: Unknown, negative: Unknown, conductance: real, history: real)
      modifies this
      ensures AddsCurrent(old(system), system, positive, negative,
        CapacitorLaw(positive, negative, conductance, history))
      ensures Unknowns(system) == old(Unknowns(system)) + {positive, negative}
    {
      ghost var s0 := system;
      StampConductance(positive, negative, conductance);
      ghost var s1 := system;
      AddRhs(positive, history, true);
      AddRhs(negative, history, false);
      CurrentsAdd(s0, s1, system, positive, negative, Conducted(positive, negative, conductance), Constant(-history));
    }

    /** Backward-Euler inductor: a conductance dt/L beside the previous current. */
    method StampInductor(positive: Unknown, negative: Unknown, inductance: real, timestep: real, previousCurrent: real)
      requires inductance != 0.0
      modifies this
      ensures AddsCurrent(old(system), system, positive, negative,
                          Plus(Conducted(positive, negative, timestep / inductance), Constant(previousCurrent)))
      ensures Unknowns(system) == old(Unknowns(system)) + {positive, negative}
    {
      ghost var s0 := system;
      StampConductance(positive, negative, timestep / inductance);
      ghost var s1 := system;
      StampCurrentSource(positive, negative, previousCurrent);
      CurrentsAdd(s0, s1, system, positive, negative, Conducted(positive, negative, timestep / inductance),
        Constant(previousCurrent));
    }

    /** The linearised voltage-controlled conductance: conductance, controlled source and correction. */
    method StampLinearized(outputPositive: Unknown, outputNegative: Unknown, control: Unknown, values: Linearization)
      modifies this
      ensures AddsCurrent(old(system), system, outputPositive, outputNegative,
                          LinearizedLaw(outputPositive, outputNegative, control, values))
      ensures Unknowns(system) == old(Unknowns(system)) + {outputPositive, outputNegative, control}
    {
      ghost var s0 := system;
      StampConductance(outputPositive, outputNegative, values.conductance);
      ghost var s1 := system;
      StampVccs(outputPositive, outputNegative, control, outputNegative, values.transconductance);
      ghost var s2 := system;
      AddRhs(outputPositive, values.correction, true);
      AddRhs(outputNegative, values.correction, false);
      CurrentsAdd(s0, s1, s2, outputPositive, outputNegative,
                  Conducted(outputPositive, outputNegative, values.conductance),
                    Conducted(control, outputNegative, values.transconductance));
      CurrentsAdd(s0, s2, system, outputPositive, outputNegative,
                  Plus(Conducted(outputPositive, outputNegative, values.conductance),
                    Conducted(control, outputNegative, values.transconductance)),
                  Constant(-values.correction));
    }

    /** Stamp one element. Every primitive of the engine is one of these forms. */
    method Stamp(e: Element, ghost nodes: seq<nat>)
      requires e.WellPlaced(nodes)
      modifies this
      ensures AddsElement(old(system), system, e)
      ensures Unknowns(system) == old(Unknowns(system)) + e.Terminals()
    {
      ghost var before := system;
      match e {
        case Conductor(a, b, g) =>
          StampConductance(a, b, g);
          ConductedIsLaw(e, a, b, g);
          CurrentIsElement(before, system, e, Conducted(a, b, g));
        case CurrentSource(from, to, i) =>
          StampCurrentSource(from, to, i);
          CurrentIsElement(before, system, e, Constant(i));
        case VoltageSource(p, n, branch, v) =>
          StampVoltageSource(p, n, branch, v);
          BranchIsElement(before, system, e, VoltageLaw(p, n, v));
        case ControlledCurrent(p, n, cp, cn, g) =>
          StampVccs(p, n, cp, cn, g);
          ConductedIsLaw(e, cp, cn, g);
          CurrentIsElement(before, system, e, Conducted(cp, cn, g));
        case ControlledVoltage(p, n, cp, cn, branch, gain) =>
          StampVcvs(p, n, cp, cn, branch, gain);
          BranchIsElement(before, system, e, GainLaw(p, n, cp, cn, gain));
        case Capacitor(p, n, c, dt, previous) =>
          StampCapacitor(p, n, c, dt, previous);
          ChangeIsLaw(p, n, c, dt, previous);
          CurrentIsElement(before, system, e, ChangeLaw(p, n, c / dt, previous));
        case Inductor(p, n, l, dt, previous) =>
          StampInductor(p, n, l, dt, previous);
          InductorIsLaw(p, n, l, dt, previous);
          CurrentIsElement(before, system, e, Plus(Conducted(p, n, dt / l), Constant(previous)));
        case ControlledConductance(p, n, c, values) =>
          StampLinearized(p, n, c, values);
          LinearizedIsLaw(p, n, c, values);
          CurrentIsElement(before, system, e, LinearizedLaw(p, n, c, values));
      }
    }

    /** A list of elements adds exactly what its elements add, row by row. The system stays lawful, and the row and
        column of the reference can be dropped from it. */
    method StampAll(elements: seq<Element>, ghost layout: Layout)
      requires layout.nodes != [] && Distinct(layout.nodes) && forall e | e in elements :: e.Fits(layout)
      requires Lawful(system, layout.nodes) && Known(layout, system)
      modifies this
      ensures AddsElements(old(system), system, elements)
      ensures Lawful(system, layout.nodes) && Known(layout, system)
      ensures forall x: seq<real> | |x| == layout.Dimension() ::
                SolvesBound(layout, system, x) <==> SolvesFull(layout, system, Extend(layout, x))
    {
      assert elements[..0] == [];
      for i := 0 to |elements|
        invariant Lawful(system, layout.nodes) && Known(layout, system)
        invariant AddsElements(old(system), system, elements[..i])
      {
        assert elements[i] in elements;
        ghost var before := system;
        Stamp(elements[i], layout.nodes);
        ElementKeepsLaws(before, system, elements[i], layout.nodes);
        TerminalsKeepKnown(layout, before, system, elements[i].Terminals());
        ElementsAddUp(old(system), before, system, elements, i);
      }
      assert elements[..|elements|] == elements;
      forall x: seq<real> | |x| == layout.Dimension()
        ensures SolvesBound(layout, system, x) <==> SolvesFull(layout, system, Extend(layout, x))
      {
        GroundingIsExact(layout, system, x);
      }
    }
  }

  function Plus(f: Assignment -> real, g: Assignment -> real): Assignment -> real {
    (x: Assignment) => f(x) + g(x)
  }

  function CapacitorLaw(positive: Unknown, negative: Unknown, conductance: real, history: real): Assignment -> real {
    Plus(Conducted(positive, negative, conductance), Constant(-history))
  }

  /** The current of a capacitor: proportional to the change of its voltage. */
  function ChangeLaw(positive: Unknown, negative: Unknown, conductance: real, previous: real): Assignment -> real {
    (x: Assignment) => conductance * (x(positive) - x(negative) - previous)
  }

  lemma CompanionFollowsChange(
      before: System, after: System, positive: Unknown, negative: Unknown, conductance: real, previous: real)
    requires AddsCurrent(before, after, positive, negative,
      CapacitorLaw(positive, negative, conductance, conductance * previous))
    ensures AddsCurrent(before, after, positive, negative, ChangeLaw(positive, negative, conductance, previous))
  {
    var law, change :=
      CapacitorLaw(positive, negative, conductance, conductance * previous),
      ChangeLaw(positive, negative, conductance, previous);
    forall x: Assignment, row ensures AddsCurrentAt(before, after, positive, negative, change, x, row) {
      DistributeOver(conductance, x(positive), -x(negative) - previous);
      DistributeOver(conductance, -x(negative), -previous);
      assert law(x) == change(x);
      assert AddsCurrentAt(before, after, positive, negative, law, x, row);
    }
  }

  datatype Linearization = Linearization(conductance: real, transconductance: real, correction: real)

  function LinearizedLaw(
      outputPositive: Unknown, outputNegative: Unknown, control: Unknown, values: Linearization): Assignment -> real
  {
    Plus(Plus(Conducted(outputPositive, outputNegative, values.conductance),
      Conducted(control, outputNegative, values.transconductance)),
         Constant(-values.correction))
  }

  lemma CurrentsAdd(
      s0: System, s1: System, s2: System, from: Unknown, to: Unknown, f: Assignment -> real, g: Assignment -> real)
    requires AddsCurrent(s0, s1, from, to, f) && AddsCurrent(s1, s2, from, to, g)
    ensures AddsCurrent(s0, s2, from, to, Plus(f, g))
  {
    forall x: Assignment, row ensures AddsCurrentAt(s0, s2, from, to, Plus(f, g), x, row) {
      assert AddsCurrentAt(s0, s1, from, to, f, x, row) && AddsCurrentAt(s1, s2, from, to, g, x, row);
    }
  }

  /** The linear forms that primitives stamp. Resistors, diodes, switches and gate output stages are
      conductors; the reading half of a tick delay is a voltage source. */
  datatype Element =
    | Conductor(a: Unknown, b: Unknown, g: real)
    | CurrentSource(from: Unknown, to: Unknown, i: real)
    | VoltageSource(p: Unknown, n: Unknown, branch: Unknown, v: real)
    | ControlledCurrent(p: Unknown, n: Unknown, cp: Unknown, cn: Unknown, g: real)
    | ControlledVoltage(p: Unknown, n: Unknown, cp: Unknown, cn: Unknown, branch: Unknown, gain: real)
    | Capacitor(p: Unknown, n: Unknown, capacitance: real, timestep: real, previous: real)
    | Inductor(p: Unknown, n: Unknown, inductance: real, timestep: real, previous: real)
    | ControlledConductance(p: Unknown, n: Unknown, control: Unknown, values: Linearization)
  {
    ghost predicate WellPlaced(nodes: seq<nat>) {
      match this
      case Conductor(a, b, _) => At(a, nodes) && At(b, nodes)
      case CurrentSource(from, to, _) => At(from, nodes) && At(to, nodes)
      case VoltageSource(p, n, branch, _) => At(p, nodes) && At(n, nodes) && branch.Branch?
      case ControlledCurrent(p, n, cp, cn, _) => At(p, nodes) && At(n, nodes) && At(cp, nodes) && At(cn, nodes)
      case ControlledVoltage(p, n, cp, cn, branch, _) =>
        At(p, nodes) && At(n, nodes) && At(cp, nodes) && At(cn, nodes) && branch.Branch?
      case Capacitor(p, n, _, timestep, _) => At(p, nodes) && At(n, nodes) && timestep != 0.0
      case Inductor(p, n, inductance, _, _) => At(p, nodes) && At(n, nodes) && inductance != 0.0
      case ControlledConductance(p, n, control, _) => At(p, nodes) && At(n, nodes) && At(control, nodes)
    }

    function Terminals(): set<Unknown> {
      match this
      case Conductor(a, b, _) => {a, b}
      case CurrentSource(from, to, _) => {from, to}
      case VoltageSource(p, n, branch, _) => {p, n, branch}
      case ControlledCurrent(p, n, cp, cn, _) => {p, n, cp, cn}
      case ControlledVoltage(p, n, cp, cn, branch, _) => {p, n, cp, cn, branch}
      case Capacitor(p, n, _, _, _) => {p, n}
      case Inductor(p, n, _, _, _) => {p, n}
      case ControlledConductance(p, n, control, _) => {p, n, control}
    }

    /** The terminal at which the current of the element leaves the node, and the one at which it returns. */
    function From(): Unknown {
      match this
      case Conductor(a, _, _) => a
      case CurrentSource(from, _, _) => from
      case VoltageSource(p, _, _, _) => p
      case ControlledCurrent(p, _, _, _, _) => p
      case ControlledVoltage(p, _, _, _, _, _) => p
      case Capacitor(p, _, _, _, _) => p
      case Inductor(p, _, _, _, _) => p
      case ControlledConductance(p, _, _, _) => p
    }

    function To(): Unknown {
      match this
      case Conductor(_, b, _) => b
      case CurrentSource(_, to, _) => to
      case VoltageSource(_, n, _, _) => n
      case ControlledCurrent(_, n, _, _, _) => n
      case ControlledVoltage(_, n, _, _, _, _) => n
      case Capacitor(_, n, _, _, _) => n
      case Inductor(_, n, _, _, _) => n
      case ControlledConductance(_, n, _, _) => n
    }

    /** The current through the element, from the first terminal to the second. */
    ghost function Current(x: Assignment): real {
      match this
      case Conductor(a, b, g) => g * Across(x, a, b)
      case CurrentSource(_, _, i) => i
      case VoltageSource(_, _, branch, _) => x(branch)
      case ControlledCurrent(_, _, cp, cn, g) => g * Across(x, cp, cn)
      case ControlledVoltage(_, _, _, _, branch, _) => x(branch)
      case Capacitor(p, n, capacitance, timestep, previous) =>
        if timestep == 0.0 then 0.0 else capacitance * ((Across(x, p, n) - previous) / timestep)
      case Inductor(p, n, inductance, timestep, previous) =>
        if inductance == 0.0 then 0.0 else previous + timestep * (Across(x, p, n) / inductance)
      case ControlledConductance(p, n, control, values) =>
        values.conductance * Across(x, p, n) + values.transconductance * Across(x, control, n) - values.correction
    }

    /** The branch of a voltage source, and how far the source is from imposing its voltage. */
    function BranchUnknown(): Option<Unknown> {
      match this
      case VoltageSource(_, _, branch, _) => Some(branch)
      case ControlledVoltage(_, _, _, _, branch, _) => Some(branch)
      case _ => None
    }

    ghost function Mismatch(x: Assignment): real {
      match this
      case VoltageSource(p, n, _, v) => Across(x, p, n) - v
      case ControlledVoltage(p, n, cp, cn, _, gain) => Across(x, p, n) - gain * Across(x, cp, cn)
      case _ => 0.0
    }

    /** What the element adds to the residual of a row: its current out of one node and into the other, and the
        mismatch of a source in the row of its branch. */
    ghost function Adds(x: Assignment, row: Unknown): real {
      (if row == From() then Current(x) else 0.0) - (if row == To() then Current(x) else 0.0)
      + (if BranchUnknown() == Some(row) then Mismatch(x) else 0.0)
    }

    /** Its nodes are nodes of the layout, and its branch is one of the allocated ones. */
    ghost predicate Fits(layout: Layout) {
      WellPlaced(layout.nodes) && forall u | u in Terminals() :: layout.Knows(u)
    }
  }

  /** The voltage from `b` to `a`. */
  ghost function Across(x: Assignment, a: Unknown, b: Unknown): real {
    x(a) - x(b)
  }

  ghost predicate At(u: Unknown, nodes: seq<nat>) {
    u.Node? && u.id in nodes
  }

  // ----- Kirchhoff's current law, and the choice of reference -----

  /** The sum of the residuals of the node rows. */
  ghost function NodeSum(s: System, x: Assignment, nodes: seq<nat>): real {
    if nodes == [] then 0.0
    else NodeSum(s, x, nodes[..|nodes| - 1]) + Residual(s, x, Node(nodes[|nodes| - 1]))
  }

  /** Add a constant to every node voltage. */
  function Shift(x: Assignment, c: real): Assignment {
    (u: Unknown) => if u.Node? then x(u) + c else x(u)
  }

  ghost predicate ShiftFreeSystem(s: System) {
    forall x: Assignment, c: real, row :: Residual(s, Shift(x, c), row) == Residual(s, x, row)
  }

  /** For every assignment the node residuals cancel, and no row depends on the reference. */
  ghost predicate Lawful(s: System, nodes: seq<nat>) {
    (forall x: Assignment :: NodeSum(s, x, nodes) == 0.0) && ShiftFreeSystem(s)
  }

  lemma {:induction false} EmptySystemIsLawful(nodes: seq<nat>)
    ensures Lawful(System([], []), nodes)
  {
    forall x: Assignment ensures NodeSum(System([], []), x, nodes) == 0.0 { EmptyNodeSum(x, nodes); }
  }

  lemma {:induction false} EmptyNodeSum(x: Assignment, nodes: seq<nat>)
    ensures NodeSum(System([], []), x, nodes) == 0.0
  {
    if nodes != [] { EmptyNodeSum(x, nodes[..|nodes| - 1]); }
  }

  lemma DistributeOver(g: real, y: real, c: real)
    ensures g * (y + c) == g * y + g * c
  {
  }

  /** The amount `i`, once for every occurrence of the node `u` in the list. */
  ghost function Share(nodes: seq<nat>, u: Unknown, i: real): real {
    if nodes == [] then 0.0
    else Share(nodes[..|nodes| - 1], u, i) + (if Node(nodes[|nodes| - 1]) == u then i else 0.0)
  }

  lemma {:induction false} DistinctSharesOnce(nodes: seq<nat>, u: Unknown, i: real)
    requires Distinct(nodes)
    ensures Share(nodes, u, i) == if At(u, nodes) then i else 0.0
  {
    if nodes != [] {
      var n := |nodes| - 1;
      DistinctSharesOnce(nodes[..n], u, i);
      assert nodes == nodes[..n] + [nodes[n]];
    }
  }

  lemma {:induction false} NodeSumGains(
      before: System, after: System, x: Assignment, nodes: seq<nat>, from: Unknown, to: Unknown, i: real)
    requires forall n | n in nodes ::
               Residual(after, x, Node(n)) ==
                 Residual(before, x, Node(n)) + (if Node(n) == from then i else 0.0)
                 - (if Node(n) == to then i else 0.0)
    ensures NodeSum(after, x, nodes) == NodeSum(before, x, nodes) + Share(nodes, from, i) - Share(nodes, to, i)
  {
    if nodes != [] {
      var n := |nodes| - 1;
      NodeSumGains(before, after, x, nodes[..n], from, to, i);
      assert nodes[n] in nodes;
    }
  }

  /** A current between two nodes of the list leaves the sum of their rows alone. */
  lemma TransferKeepsNodeSum(
      before: System, after: System, x: Assignment, nodes: seq<nat>, from: Unknown, to: Unknown, i: real)
    requires Distinct(nodes) && At(from, nodes) && At(to, nodes)
    requires forall n | n in nodes ::
               Residual(after, x, Node(n)) ==
                 Residual(before, x, Node(n)) + (if Node(n) == from then i else 0.0)
                 - (if Node(n) == to then i else 0.0)
    ensures NodeSum(after, x, nodes) == NodeSum(before, x, nodes)
  {
    NodeSumGains(before, after, x, nodes, from, to, i);
    DistinctSharesOnce(nodes, from, i);
    DistinctSharesOnce(nodes, to, i);
  }

  // ----- What elements add -----

  ghost predicate AddsElement(before: System, after: System, e: Element) {
    forall x: Assignment, row :: AddsElementAt(before, after, e, x, row)
  }

  ghost predicate AddsElementAt(before: System, after: System, e: Element, x: Assignment, row: Unknown) {
    Residual(after, x, row) == Residual(before, x, row) + e.Adds(x, row)
  }

  /** The sum of what the elements add to one row. */
  ghost function Net(elements: seq<Element>, x: Assignment, row: Unknown): real {
    if elements == [] then 0.0
    else Net(elements[..|elements| - 1], x, row) + elements[|elements| - 1].Adds(x, row)
  }

  ghost predicate AddsElements(before: System, after: System, elements: seq<Element>) {
    forall x: Assignment, row :: AddsElementsAt(before, after, elements, x, row)
  }

  ghost predicate AddsElementsAt(before: System, after: System, elements: seq<Element>, x: Assignment, row: Unknown) {
    Residual(after, x, row) == Residual(before, x, row) + Net(elements, x, row)
  }

  lemma ElementsAddUp(start: System, before: System, after: System, elements: seq<Element>, i: nat)
    requires i < |elements| && AddsElements(start, before, elements[..i]) && AddsElement(before, after, elements[i])
    ensures AddsElements(start, after, elements[..i + 1])
  {
    var fewer, more, e := elements[..i], elements[..i + 1], elements[i];
    assert more[..i] == fewer && more[i] == e;
    forall x: Assignment, row ensures AddsElementsAt(start, after, more, x, row) {
      assert AddsElementsAt(start, before, fewer, x, row) && AddsElementAt(before, after, e, x, row);
    }
  }

  lemma QuotientMoves(a: real, y: real, d: real)
    requires d != 0.0
    ensures a / d * y == a * (y / d)
  {
    var q, r := a / d, y / d;
    assert q * d == a && r * d == y;
    assert q * y == q * (r * d) == (q * d) * r;
  }

  lemma ConductedIsCurrent(a: Unknown, b: Unknown, g: real, x: Assignment)
    ensures Conducted(a, b, g)(x) == g * Across(x, a, b)
  {
    DistributeOver(g, x(a), -x(b));
  }

  lemma ChangeIsCurrent(p: Unknown, n: Unknown, c: real, dt: real, previous: real, x: Assignment)
    requires dt != 0.0
    ensures ChangeLaw(p, n, c / dt, previous)(x) == c * ((Across(x, p, n) - previous) / dt)
  {
    var law, y := ChangeLaw(p, n, c / dt, previous)(x), Across(x, p, n) - previous;
    assert law == c / dt * y;
    QuotientMoves(c, y, dt);
  }

  lemma InductorIsCurrent(p: Unknown, n: Unknown, l: real, dt: real, previous: real, x: Assignment)
    requires l != 0.0
    ensures Plus(Conducted(p, n, dt / l), Constant(previous))(x) == previous + dt * (Across(x, p, n) / l)
  {
    ConductedIsCurrent(p, n, dt / l, x);
    QuotientMoves(dt, Across(x, p, n), l);
  }

  lemma LinearizedIsCurrent(p: Unknown, n: Unknown, control: Unknown, values: Linearization, x: Assignment)
    ensures LinearizedLaw(p, n, control, values)(x) ==
            values.conductance * Across(x, p, n) + values.transconductance * Across(x, control, n) - values.correction
  {
    ConductedIsCurrent(p, n, values.conductance, x);
    ConductedIsCurrent(control, n, values.transconductance, x);
  }

  ghost predicate IsLawOf(e: Element, law: Assignment -> real) {
    forall x: Assignment :: law(x) == e.Current(x)
  }

  lemma ConductedIsLaw(e: Element, a: Unknown, b: Unknown, g: real)
    requires e == Conductor(a, b, g) || (e.ControlledCurrent? && e.cp == a && e.cn == b && e.g == g)
    ensures IsLawOf(e, Conducted(a, b, g))
  {
    forall x: Assignment ensures Conducted(a, b, g)(x) == e.Current(x) {
      ConductedIsCurrent(a, b, g, x);
    }
  }

  lemma ChangeIsLaw(p: Unknown, n: Unknown, c: real, dt: real, previous: real)
    requires dt != 0.0
    ensures IsLawOf(Capacitor(p, n, c, dt, previous), ChangeLaw(p, n, c / dt, previous))
  {
    var e, law := Capacitor(p, n, c, dt, previous), ChangeLaw(p, n, c / dt, previous);
    forall x: Assignment ensures law(x) == e.Current(x) {
      ChangeIsCurrent(p, n, c, dt, previous, x);
    }
  }

  lemma InductorIsLaw(p: Unknown, n: Unknown, l: real, dt: real, previous: real)
    requires l != 0.0
    ensures IsLawOf(Inductor(p, n, l, dt, previous), Plus(Conducted(p, n, dt / l), Constant(previous)))
  {
    var e, law := Inductor(p, n, l, dt, previous), Plus(Conducted(p, n, dt / l), Constant(previous));
    forall x: Assignment ensures law(x) == e.Current(x) {
      InductorIsCurrent(p, n, l, dt, previous, x);
    }
  }

  lemma LinearizedIsLaw(p: Unknown, n: Unknown, control: Unknown, values: Linearization)
    ensures IsLawOf(ControlledConductance(p, n, control, values), LinearizedLaw(p, n, control, values))
  {
    var e, law := ControlledConductance(p, n, control, values), LinearizedLaw(p, n, control, values);
    forall x: Assignment ensures law(x) == e.Current(x) {
      LinearizedIsCurrent(p, n, control, values, x);
    }
  }

  lemma CurrentIsElement(before: System, after: System, e: Element, law: Assignment -> real)
    requires AddsCurrent(before, after, e.From(), e.To(), law) && IsLawOf(e, law) && e.BranchUnknown().None?
    ensures AddsElement(before, after, e)
  {
    forall x: Assignment, row ensures AddsElementAt(before, after, e, x, row) {
      assert AddsCurrentAt(before, after, e.From(), e.To(), law, x, row);
      assert law(x) == e.Current(x);
    }
  }

  lemma BranchIsElement(before: System, after: System, e: Element, law: Assignment -> real)
    requires e.VoltageSource? || e.ControlledVoltage?
    requires AddsBranch(before, after, e.From(), e.To(), e.branch, law)
    requires e.VoltageSource? ==> law == VoltageLaw(e.p, e.n, e.v)
    requires e.ControlledVoltage? ==> law == GainLaw(e.p, e.n, e.cp, e.cn, e.gain)
    ensures AddsElement(before, after, e)
  {
    forall x: Assignment, row ensures AddsElementAt(before, after, e, x, row) {
      assert AddsBranchAt(before, after, e.From(), e.To(), e.branch, law, x, row);
      if e.ControlledVoltage? {
        ConductedIsCurrent(e.cp, e.cn, e.gain, x);
      }
    }
  }

  lemma AcrossIsShiftFree(nodes: seq<nat>, x: Assignment, c: real, a: Unknown, b: Unknown)
    requires At(a, nodes) && At(b, nodes)
    ensures Across(Shift(x, c), a, b) == Across(x, a, b)
  {
  }

  lemma ElementIsShiftFree(e: Element, nodes: seq<nat>, x: Assignment, c: real)
    requires e.WellPlaced(nodes)
    ensures e.Current(Shift(x, c)) == e.Current(x) && e.Mismatch(Shift(x, c)) == e.Mismatch(x)
  {
    AcrossIsShiftFree(nodes, x, c, e.From(), e.To());
    match e {
      case ControlledCurrent(_, _, cp, cn, _) => AcrossIsShiftFree(nodes, x, c, cp, cn);
      case ControlledVoltage(_, _, cp, cn, _, _) => AcrossIsShiftFree(nodes, x, c, cp, cn);
      case ControlledConductance(_, n, q, _) => AcrossIsShiftFree(nodes, x, c, q, n);
      case _ =>
    }
  }

  /** No element creates current, and none depends on the choice of reference. */
  lemma ElementKeepsLaws(before: System, after: System, e: Element, nodes: seq<nat>)
    requires Lawful(before, nodes) && AddsElement(before, after, e) && e.WellPlaced(nodes) && Distinct(nodes)
    ensures Lawful(after, nodes)
  {
    forall x: Assignment ensures NodeSum(after, x, nodes) == 0.0 {
      ElementKeepsNodeSum(before, after, e, nodes, x);
      assert NodeSum(before, x, nodes) == 0.0;
    }
    forall x: Assignment, c: real, row ensures Residual(after, Shift(x, c), row) == Residual(after, x, row) {
      ElementIsShiftFree(e, nodes, x, c);
      SameAddition(before, after, e, x, Shift(x, c), row);
    }
  }

  lemma SameAddition(before: System, after: System, e: Element, x: Assignment, y: Assignment, row: Unknown)
    requires AddsElement(before, after, e) && e.Current(y) == e.Current(x) && e.Mismatch(y) == e.Mismatch(x)
    requires Residual(before, y, row) == Residual(before, x, row)
    ensures Residual(after, y, row) == Residual(after, x, row)
  {
    assert AddsElementAt(before, after, e, x, row) && AddsElementAt(before, after, e, y, row);
  }

  lemma ElementKeepsNodeSum(before: System, after: System, e: Element, nodes: seq<nat>, x: Assignment)
    requires AddsElement(before, after, e) && e.WellPlaced(nodes) && Distinct(nodes)
    ensures NodeSum(after, x, nodes) == NodeSum(before, x, nodes)
  {
    forall n | n in nodes
      ensures Residual(after, x, Node(n)) ==
              Residual(before, x, Node(n)) + (if Node(n) == e.From() then e.Current(x) else 0.0)
              - (if Node(n) == e.To() then e.Current(x) else 0.0)
    {
      assert AddsElementAt(before, after, e, x, Node(n));
    }
    TransferKeepsNodeSum(before, after, x, nodes, e.From(), e.To(), e.Current(x));
  }

  // ----- The circuit -----

  /** No two sources share a branch. */
  ghost predicate OwnBranches(elements: seq<Element>) {
    forall i, j | 0 <= i < j < |elements| && elements[i].BranchUnknown().Some? ::
      elements[i].BranchUnknown() != elements[j].BranchUnknown()
  }

  /** Kirchhoff's current law at every node, and the voltage of every source. */
  ghost predicate Obeys(layout: Layout, elements: seq<Element>, x: Assignment) {
    && (forall n | n in layout.nodes :: Net(elements, x, Node(n)) == 0.0)
    && (forall e | e in elements :: e.Mismatch(x) == 0.0)
  }

  lemma BranchRowOf(e: Element, nodes: seq<nat>, x: Assignment, row: Unknown)
    requires e.WellPlaced(nodes) && row.Branch?
    ensures e.Adds(x, row) == if e.BranchUnknown() == Some(row) then e.Mismatch(x) else 0.0
  {
    assert e.From().Node? && e.To().Node?;
  }

  /** In the row of a branch there is the mismatch of its source, and nothing else. */
  lemma {:induction false} NetOfBranch(elements: seq<Element>, nodes: seq<nat>, x: Assignment, row: Unknown)
    requires OwnBranches(elements) && row.Branch? && forall e | e in elements :: e.WellPlaced(nodes)
    ensures (forall e | e in elements :: e.BranchUnknown() != Some(row)) ==> Net(elements, x, row) == 0.0
    ensures forall e | e in elements && e.BranchUnknown() == Some(row) :: Net(elements, x, row) == e.Mismatch(x)
  {
    if elements != [] {
      var n := |elements| - 1;
      var rest, last := elements[..n], elements[n];
      assert elements == rest + [last];
      NetOfBranch(rest, nodes, x, row);
      assert last in elements;
      BranchRowOf(last, nodes, x, row);
      forall e | e in rest ensures e in elements && (last.BranchUnknown().Some? ==> e.BranchUnknown() != last.BranchUnknown()) {
        var i :| 0 <= i < n && rest[i] == e;
        assert elements[i] == e;
      }
    }
  }

  /** The solutions of the stamped system are exactly the states of the circuit: those in which the currents of the
      elements cancel at every node and every source has its voltage. */
  lemma SolutionsAreCircuitStates(layout: Layout, elements: seq<Element>, s: System, x: Assignment)
    requires AddsElements(System([], []), s, elements) && OwnBranches(elements)
    requires forall e | e in elements :: e.Fits(layout)
    ensures SolvesFull(layout, s, x) <==> Obeys(layout, elements, x)
  {
    forall row ensures Residual(s, x, row) == Net(elements, x, row) {
      assert AddsElementsAt(System([], []), s, elements, x, row);
    }
    forall row: Unknown | row.Branch?
      ensures (forall e | e in elements :: e.BranchUnknown() != Some(row)) ==> Net(elements, x, row) == 0.0
      ensures forall e | e in elements && e.BranchUnknown() == Some(row) :: Net(elements, x, row) == e.Mismatch(x)
    {
      NetOfBranch(elements, layout.nodes, x, row);
    }
    if SolvesFull(layout, s, x) {
      forall e | e in elements ensures e.Mismatch(x) == 0.0 {
        if e.BranchUnknown().Some? {
          assert e.BranchUnknown().value in e.Terminals();
          assert Residual(s, x, e.BranchUnknown().value) == 0.0;
        }
      }
      forall n | n in layout.nodes ensures Net(elements, x, Node(n)) == 0.0 {
        assert Residual(s, x, Node(n)) == 0.0;
      }
    }
    if Obeys(layout, elements, x) {
      forall u | layout.Knows(u) ensures Residual(s, x, u) == 0.0 {
        if u.Branch? {
          if e :| e in elements && e.BranchUnknown() == Some(u) {
            assert Net(elements, x, u) == e.Mismatch(x);
          }
        } else {
          assert u == Node(u.id) && u.id in layout.nodes;
        }
      }
    }
  }

  // ----- Grounding -----

  /** `IslandUnknownLayout` with the branch unknowns allocated behind the nodes. */
  datatype Layout = Layout(nodes: seq<nat>, branchCount: nat) {
    function NodeDimension(): nat {
      if |nodes| == 0 then 0 else |nodes| - 1
    }

    function Dimension(): nat {
      NodeDimension() + branchCount
    }

    ghost predicate Knows(u: Unknown) {
      match u
      case Node(id) => id in nodes
      case Branch(index) => index < branchCount
    }

    /** `node_unknown` for nodes; the reference node, which is the first, has no unknown. */
    ghost function Index(u: Unknown): (r: Option<nat>)
      requires Knows(u)
      ensures r.Some? ==> r.value < Dimension()
      ensures r.None? ==> u.Node? && |nodes| > 0 && u.id == nodes[0]
    {
      match u
      case Node(id) =>
        var position := Position(nodes, id);
        if position == 0 then None else Some(position - 1)
      case Branch(index) => Some(NodeDimension() + index)
    }

    /** The linear scan of `node_unknown`. */
    method NodeUnknown(id: nat) returns (unknown: Option<nat>)
      requires id in nodes
      ensures unknown == Index(Node(id))
    {
      var position := 0;
      while nodes[position] != id
        invariant position < |nodes| && id !in nodes[..position]
        decreases |nodes| - position
      {
        assert nodes[..position + 1] == nodes[..position] + [nodes[position]];
        assert nodes == nodes[..position + 1] + nodes[position + 1..];
        position := position + 1;
      }
      PositionIsFirst(nodes, id, position);
      if position == 0 {
        return None;
      }
      return Some(position - 1);
    }
  }

  ghost function Position(nodes: seq<nat>, id: nat): (p: nat)
    requires id in nodes
    ensures p < |nodes| && nodes[p] == id && id !in nodes[..p]
  {
    if nodes[0] == id then 0
    else
      var p := 1 + Position(nodes[1..], id);
      assert nodes[..p] == [nodes[0]] + nodes[1..][..p - 1];
      p
  }

  lemma PositionIsFirst(nodes: seq<nat>, id: nat, p: nat)
    requires p < |nodes| && nodes[p] == id && id !in nodes[..p]
    ensures Position(nodes, id) == p
  {
    var q := Position(nodes, id);
    forall k | 0 <= k < p ensures nodes[k] != id { assert nodes[..p][k] == nodes[k]; }
    forall k | 0 <= k < q ensures nodes[k] != id { assert nodes[..q][k] == nodes[k]; }
  }

  /** Unknowns that have an index are told apart by it. */
  lemma IndexIsInjective(layout: Layout, u: Unknown, v: Unknown)
    requires layout.Knows(u) && layout.Knows(v) && layout.Index(u) == layout.Index(v)
    ensures u == v
  {
  }

  ghost predicate Known(layout: Layout, s: System) {
    && (forall e | e in s.matrix :: layout.Knows(e.row) && layout.Knows(e.column))
    && (forall i | i in s.rhs :: layout.Knows(i.row))
  }

  lemma TerminalsKeepKnown(layout: Layout, before: System, after: System, terminals: set<Unknown>)
    requires Known(layout, before) && Unknowns(after) == Unknowns(before) + terminals
    requires forall u | u in terminals :: layout.Knows(u)
    ensures Known(layout, after)
  {
    forall u | u in Unknowns(after) ensures layout.Knows(u) {
    }
    forall e | e in after.matrix ensures layout.Knows(e.row) && layout.Knows(e.column) {
      assert e.row in Unknowns(after) && e.column in Unknowns(after);
    }
    forall i | i in after.rhs ensures layout.Knows(i.row) {
      assert i.row in Unknowns(after);
    }
  }

  /** The solution vector with the reference node's zero put back. */
  ghost function Extend(layout: Layout, x: seq<real>): Assignment {
    (u: Unknown) =>
      if !layout.Knows(u) then 0.0
      else if layout.Index(u).Some? && layout.Index(u).value < |x| then x[layout.Index(u).value] else 0.0
  }

  /** Row `r` of the bound system: entries of the reference row and column are not bound. */
  ghost function BoundProduct(layout: Layout, matrix: seq<Entry>, x: seq<real>, r: nat): real
    requires |x| == layout.Dimension() && forall e | e in matrix :: layout.Knows(e.row) && layout.Knows(e.column)
  {
    if matrix == [] then 0.0
    else
      var last := matrix[|matrix| - 1];
      assert last in matrix;
      BoundProduct(layout, matrix[..|matrix| - 1], x, r)
      + (if layout.Index(last.row) == Some(r) && layout.Index(last.column).Some?
         then last.amount * x[layout.Index(last.column).value] else 0.0)
  }

  ghost function BoundSource(layout: Layout, rhs: seq<Injection>, r: nat): real
    requires forall i | i in rhs :: layout.Knows(i.row)
  {
    if rhs == [] then 0.0
    else
      var last := rhs[|rhs| - 1];
      assert last in rhs;
      BoundSource(layout, rhs[..|rhs| - 1], r) + (if layout.Index(last.row) == Some(r) then last.amount else 0.0)
  }

  ghost predicate SolvesBound(layout: Layout, s: System, x: seq<real>)
    requires Known(layout, s)
  {
    |x| == layout.Dimension()
      && forall r | 0 <= r < layout.Dimension() :: BoundProduct(layout, s.matrix, x, r) == BoundSource(layout, s.rhs, r)
  }

  ghost predicate SolvesFull(layout: Layout, s: System, x: Assignment) {
    forall u | layout.Knows(u) :: Residual(s, x, u) == 0.0
  }

  lemma {:induction false} BoundProductIsRow(layout: Layout, matrix: seq<Entry>, x: seq<real>, u: Unknown)
    requires |x| == layout.Dimension() && forall e | e in matrix :: layout.Knows(e.row) && layout.Knows(e.column)
    requires layout.Knows(u) && layout.Index(u).Some?
    ensures BoundProduct(layout, matrix, x, layout.Index(u).value) == RowProduct(matrix, Extend(layout, x), u)
  {
    if matrix != [] {
      var last := matrix[|matrix| - 1];
      assert last in matrix;
      BoundProductIsRow(layout, matrix[..|matrix| - 1], x, u);
      if layout.Index(last.row) == layout.Index(u) {
        IndexIsInjective(layout, last.row, u);
      }
      TimesZero(last.amount);
    }
  }

  lemma TimesZero(a: real)
    ensures a * 0.0 == 0.0
  {
  }

  lemma {:induction false} BoundSourceIsRow(layout: Layout, rhs: seq<Injection>, u: Unknown)
    requires forall i | i in rhs :: layout.Knows(i.row)
    requires layout.Knows(u) && layout.Index(u).Some?
    ensures BoundSource(layout, rhs, layout.Index(u).value) == RowSource(rhs, u)
  {
    if rhs != [] {
      var last := rhs[|rhs| - 1];
      assert last in rhs;
      BoundSourceIsRow(layout, rhs[..|rhs| - 1], u);
      if layout.Index(last.row) == layout.Index(u) {
        IndexIsInjective(layout, last.row, u);
      }
    }
  }

  lemma {:induction false} OnlyOneRowLeft(s: System, x: Assignment, nodes: seq<nat>, reference: nat)
    requires Distinct(nodes) && forall n | n in nodes && n != reference :: Residual(s, x, Node(n)) == 0.0
    ensures NodeSum(s, x, nodes) == if reference in nodes then Residual(s, x, Node(reference)) else 0.0
  {
    if nodes != [] {
      var n := |nodes| - 1;
      assert nodes == nodes[..n] + [nodes[n]];
      OnlyOneRowLeft(s, x, nodes[..n], reference);
    }
  }

  /** Grounding loses nothing: a solution of the system without the reference row and column,
      extended by zero, solves every row of the full system. */
  lemma GroundingLosesNothing(layout: Layout, s: System, x: seq<real>)
    requires Known(layout, s) && Distinct(layout.nodes) && layout.nodes != []
    requires Lawful(s, layout.nodes)
    requires SolvesBound(layout, s, x)
    ensures SolvesFull(layout, s, Extend(layout, x)) && Extend(layout, x)(Node(layout.nodes[0])) == 0.0
  {
    var full := Extend(layout, x);
    forall u | layout.Knows(u) && layout.Index(u).Some? ensures Residual(s, full, u) == 0.0 {
      BoundProductIsRow(layout, s.matrix, x, u);
      BoundSourceIsRow(layout, s.rhs, u);
    }
    var reference := layout.nodes[0];
    PositionIsFirst(layout.nodes, reference, 0);
    forall n | n in layout.nodes && n != reference ensures Residual(s, full, Node(n)) == 0.0 {
      assert layout.Knows(Node(n)) && layout.Index(Node(n)).Some?;
    }
    OnlyOneRowLeft(s, full, layout.nodes, reference);
    assert NodeSum(s, full, layout.nodes) == 0.0;
    forall u | layout.Knows(u) ensures Residual(s, full, u) == 0.0 {
      if layout.Index(u).None? { assert u == Node(reference); }
    }
  }

  /** Conversely, a full solution with the reference at zero solves the bound system. */
  lemma FullSolvesBound(layout: Layout, s: System, x: seq<real>)
    requires Known(layout, s) && |x| == layout.Dimension() && SolvesFull(layout, s, Extend(layout, x))
    requires layout.nodes != [] && Distinct(layout.nodes)
    ensures SolvesBound(layout, s, x)
  {
    forall r | 0 <= r < layout.Dimension()
      ensures BoundProduct(layout, s.matrix, x, r) == BoundSource(layout, s.rhs, r)
    {
      var u := EveryRowIsKnown(layout, r);
      BoundProductIsRow(layout, s.matrix, x, u);
      BoundSourceIsRow(layout, s.rhs, u);
      assert Residual(s, Extend(layout, x), u) == 0.0;
    }
  }

  lemma EveryRowIsKnown(layout: Layout, r: nat) returns (u: Unknown)
    requires layout.nodes != [] && Distinct(layout.nodes) && r < layout.Dimension()
    ensures layout.Knows(u) && layout.Index(u) == Some(r)
  {
    if r < layout.NodeDimension() {
      u := Node(layout.nodes[r + 1]);
      PositionIsFirst(layout.nodes, layout.nodes[r + 1], r + 1);
    } else {
      u := Branch(r - layout.NodeDimension());
    }
  }

  lemma GroundingIsExact(layout: Layout, s: System, x: seq<real>)
    requires Known(layout, s) && Distinct(layout.nodes) && layout.nodes != [] && Lawful(s, layout.nodes)
    requires |x| == layout.Dimension()
    ensures SolvesBound(layout, s, x) <==> SolvesFull(layout, s, Extend(layout, x))
  {
    if SolvesBound(layout, s, x) {
      GroundingLosesNothing(layout, s, x);
    }
    if SolvesFull(layout, s, Extend(layout, x)) {
      FullSolvesBound(layout, s, x);
    }
  }

  /** The solution vector that another layout reads off an assignment. */
  ghost function ReadOff(layout: Layout, x: Assignment): seq<real> {
    seq(layout.Dimension(), r requires 0 <= r < layout.Dimension() =>
      if r < layout.NodeDimension() then x(Node(layout.nodes[r + 1])) else x(Branch(r - layout.NodeDimension())))
  }

  lemma SameNodesKnow(layout: Layout, other: Layout, s: System)
    requires other.branchCount == layout.branchCount && forall n :: n in other.nodes <==> n in layout.nodes
    requires Known(layout, s)
    ensures Known(other, s)
  {
  }

  /** The choice of reference only shifts: solve with one reference, add the constant that brings
      another node to zero, and the system with that node as reference is solved. */
  lemma ReferenceOnlyShifts(layout: Layout, other: Layout, s: System, x: seq<real>)
    requires Distinct(layout.nodes) && Distinct(other.nodes) && layout.nodes != [] && other.nodes != []
    requires other.branchCount == layout.branchCount && forall n :: n in other.nodes <==> n in layout.nodes
    requires Known(layout, s) && Lawful(s, layout.nodes) && SolvesBound(layout, s, x)
    ensures Known(other, s)
    ensures var full := Extend(layout, x);
            SolvesBound(other, s, ReadOff(other, Shift(full, -full(Node(other.nodes[0])))))
  {
    var full := Extend(layout, x);
    SameNodesKnow(layout, other, s);
    GroundingLosesNothing(layout, s, x);
    forall u | other.Knows(u) ensures Residual(s, full, u) == 0.0 {
      assert layout.Knows(u);
    }
    ReadOffSolvesBound(other, s, full, -full(Node(other.nodes[0])));
  }

  lemma ReadOffSolvesBound(layout: Layout, s: System, full: Assignment, c: real)
    requires layout.nodes != [] && Distinct(layout.nodes) && Known(layout, s) && ShiftFreeSystem(s)
    requires SolvesFull(layout, s, full) && c == -full(Node(layout.nodes[0]))
    ensures SolvesBound(layout, s, ReadOff(layout, Shift(full, c)))
  {
    ReadOffSolves(layout, s, full, c);
    FullSolvesBound(layout, s, ReadOff(layout, Shift(full, c)));
  }

  lemma ReadOffSolves(layout: Layout, s: System, full: Assignment, c: real)
    requires layout.nodes != [] && Distinct(layout.nodes) && Known(layout, s) && ShiftFreeSystem(s)
    requires SolvesFull(layout, s, full) && c == -full(Node(layout.nodes[0]))
    ensures SolvesFull(layout, s, Extend(layout, ReadOff(layout, Shift(full, c))))
  {
    var shifted := Shift(full, c);
    var again := Extend(layout, ReadOff(layout, shifted));
    forall u | layout.Knows(u) ensures again(u) == shifted(u) {
      ReadOffIsInverse(layout, shifted, u);
    }
    forall u | layout.Knows(u) ensures Residual(s, again, u) == 0.0 {
      SameOnKnown(layout, s, again, shifted, u);
      assert Residual(s, Shift(full, c), u) == Residual(s, full, u);
    }
  }

  lemma ReadOffIsInverse(layout: Layout, x: Assignment, u: Unknown)
    requires layout.nodes != [] && Distinct(layout.nodes) && layout.Knows(u) && x(Node(layout.nodes[0])) == 0.0
    ensures Extend(layout, ReadOff(layout, x))(u) == x(u)
  {
  }

  lemma SameOnKnown(layout: Layout, s: System, x: Assignment, y: Assignment, row: Unknown)
    requires Known(layout, s) && forall u | layout.Knows(u) :: x(u) == y(u)
    ensures Residual(s, x, row) == Residual(s, y, row)
  {
    SameRowProduct(layout, s.matrix, x, y, row);
  }

  lemma {:induction false} SameRowProduct(
      layout: Layout, matrix: seq<Entry>, x: Assignment, y: Assignment, row: Unknown)
    requires (forall e | e in matrix :: layout.Knows(e.column)) && forall u | layout.Knows(u) :: x(u) == y(u)
    ensures RowProduct(matrix, x, row) == RowProduct(matrix, y, row)
  {
    if matrix != [] {
      assert matrix[|matrix| - 1] in matrix;
      SameRowProduct(layout, matrix[..|matrix| - 1], x, y, row);
    }
  }
}
