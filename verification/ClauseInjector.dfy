/** The clauses that wait to be handed to the solver, by type and by the variable that caused
    them. */
module Injection {
  import opened Logic

  datatype ClauseType = UNITS | ESBP | ESBP_FORCING

  const NO_VARIABLE: int := -1

  /** No variable has more than one clause waiting for it. */
  ghost predicate OnePerCause(waiting: map<int, seq<Clause>>) {
    forall cause :: cause in waiting && cause != NO_VARIABLE ==> |waiting[cause]| <= 1
  }

  class ClauseInjector {
    var clauses: map<ClauseType, map<int, seq<Clause>>>

    ghost predicate Valid()
      reads this
    {
      forall t: ClauseType :: t in clauses && OnePerCause(clauses[t])
    }

    function Waiting(t: ClauseType, cause: int): seq<Clause>
      requires t in clauses
      reads this
    {
      if cause in clauses[t] then clauses[t][cause] else []
    }

    constructor ()
      ensures Valid() && forall t :: clauses[t] == map[]
    {
      clauses := map[UNITS := map[], ESBP := map[], ESBP_FORCING := map[]];
      new;
      forall t: ClauseType ensures t in clauses && clauses[t] == map[] {
        match t case UNITS => case ESBP => case ESBP_FORCING =>
      }
    }

    /** At most one clause waits for a variable; any number without a cause. */
    method AddClause(t: ClauseType, cause: int, c: Clause)
      requires Valid()
      modifies this
      ensures Valid() && forall u :: u != t ==> clauses[u] == old(clauses[u])
      ensures clauses[t] == if cause == NO_VARIABLE || old(Waiting(t, cause)) == []
                            then old(clauses[t])[cause := old(Waiting(t, cause)) + [c]] else old(clauses[t])
    {
      if cause == NO_VARIABLE || Waiting(t, cause) == [] {
        clauses := clauses[t := clauses[t][cause := Waiting(t, cause) + [c]]];
      }
    }

    /** Forgets what waits for the variable, of every type. */
    method RemoveClause(cause: int)
      requires Valid()
      modifies this
      ensures Valid() && forall t :: clauses[t] == old(clauses[t])[cause := []]
    {
      clauses := clauses[UNITS := clauses[UNITS][cause := []]];
      clauses := clauses[ESBP := clauses[ESBP][cause := []]];
      clauses := clauses[ESBP_FORCING := clauses[ESBP_FORCING][cause := []]];
      forall t: ClauseType ensures clauses[t] == old(clauses[t])[cause := []] {
        match t case UNITS => case ESBP => case ESBP_FORCING =>
      }
    }

    predicate HasClause(t: ClauseType, cause: int)
      requires t in clauses
      reads this
    {
      Waiting(t, cause) != []
    }

    /** The latest clause first. */
    method GetClause(t: ClauseType, cause: int) returns (c: Clause)
      requires Valid() && HasClause(t, cause)
      modifies this
      ensures Valid() && forall u :: u != t ==> clauses[u] == old(clauses[u])
      ensures c == old(Waiting(t, cause))[|old(Waiting(t, cause))| - 1]
      ensures clauses[t] == old(clauses[t])[cause := old(Waiting(t, cause))[..|old(Waiting(t, cause))| - 1]]
    {
      var waiting := Waiting(t, cause);
      c := waiting[|waiting| - 1];
      clauses := clauses[t := clauses[t][cause := waiting[..|waiting| - 1]]];
    }
  }
}
