/** The values the solver has reported, as two bits per variable. */
module Assignments {
  import opened Logic
  import opened Lookup

  /** Bit `2 * v` says that `v` is true, bit `2 * v + 1` that it is false. */
  class Assignment {
    var bits: seq<bool>

    ghost predicate Valid()
      reads this
    {
      |bits| % 2 == 0 && forall v: nat :: 2 * v < |bits| ==> !bits[2 * v] || !bits[2 * v + 1]
    }

    ghost function Values(): Partial
      reads this
      requires Valid()
    {
      map v: nat | v < |bits| / 2 && (bits[2 * v] || bits[2 * v + 1]) :: bits[2 * v]
    }

    predicate InRange(l: Literal)
      reads this
    {
      2 * l.variable + 1 < |bits|
    }

    constructor ()
      ensures Valid() && bits == [] && Values() == map[]
    {
      bits := [];
    }

    /** Growing keeps the values; the source grows once, from the empty assignment. */
    method Resize(numVariables: nat)
      requires Valid() && |bits| <= 2 * numVariables
      modifies this
      ensures Valid() && |bits| == 2 * numVariables && Values() == old(Values())
    {
      bits := bits + seq(2 * numVariables - |bits|, (i: nat) => false);
    }

    method AssignFromTrueLiteral(l: Literal)
      requires Valid() && InRange(l) && !VariableIsAssigned(l.variable)
      modifies this
      ensures Valid() && |bits| == old(|bits|) && Values() == old(Values())[l.variable := l.positive]
    {
      bits := bits[l.Index() := true];
    }

    /** Clears both bits of the variable, whether or not one of them is set. */
    method UnassignLiteral(l: Literal)
      requires Valid() && InRange(l)
      modifies this
      ensures Valid() && |bits| == old(|bits|) && Values() == old(Values()) - {l.variable}
    {
      ghost var was := bits;
      bits := bits[l.Index() := false][l.Negated().Index() := false];
      forall v: nat | 2 * v + 1 < |bits|
        ensures bits[2 * v] == (was[2 * v] && v != l.variable) && bits[2 * v + 1] == (was[2 * v + 1] && v != l.variable)
      {
      }
    }

    predicate LiteralIsTrue(l: Literal)
      requires InRange(l)
      reads this
      ensures Valid() ==> (LiteralIsTrue(l) <==> TrueIn(Values(), l))
    {
      bits[l.Index()]
    }

    predicate LiteralIsFalse(l: Literal)
      requires InRange(l)
      reads this
      ensures Valid() ==> (LiteralIsFalse(l) <==> FalseIn(Values(), l))
    {
      bits[l.Negated().Index()]
    }

    predicate LiteralIsAssigned(l: Literal)
      requires InRange(l)
      reads this
      ensures Valid() ==> (LiteralIsAssigned(l) <==> Assigned(Values(), l))
    {
      bits[l.Index()] || bits[l.Negated().Index()]
    }

    predicate VariableIsAssigned(v: nat)
      requires 2 * v + 1 < |bits|
      reads this
      ensures Valid() ==> (VariableIsAssigned(v) <==> v in Values())
    {
      bits[2 * v] || bits[2 * v + 1]
    }

    predicate HasSameAssignmentValue(x: Literal, y: Literal)
      requires InRange(x) && InRange(y)
      reads this
      ensures Valid() ==> (HasSameAssignmentValue(x, y) <==> SameValue(Values(), x, y))
    {
      LiteralIsAssigned(x) && LiteralIsAssigned(y) && (LiteralIsTrue(x) <==> LiteralIsTrue(y))
    }

    predicate BothLiteralsAreAssigned(x: Literal, y: Literal)
      requires InRange(x) && InRange(y)
      reads this
    {
      LiteralIsAssigned(x) && LiteralIsAssigned(y)
    }

    /** The literal of an assigned variable that is false now. */
    function GetFalseLiteralForAssignedVariable(v: nat): (l: Literal)
      requires 2 * v + 1 < |bits| && VariableIsAssigned(v)
      reads this
      ensures Valid() ==> l.variable == v && FalseIn(Values(), l) && l == FalseLiteral(Values(), v)
    {
      Literal(v, !bits[2 * v])
    }
  }
}
