/** The lexicographic order on models. */
module LexLeader {
  // The value mode says which truth value comes first.

  import opened Logic

  datatype ValueMode = TRUE_LESS_FALSE | FALSE_LESS_TRUE

  function Minimal(mode: ValueMode): bool { mode == TRUE_LESS_FALSE }

  ghost predicate AgreeBelow(order: seq<nat>, a: Model, b: Model, i: int)
    requires i <= |order|
  {
    forall j :: 0 <= j < i ==> a(order[j]) == b(order[j])
  }

  /** `a` has the smaller value at the first variable of `order` on which the two differ: `i`. */
  ghost predicate LessAt(order: seq<nat>, mode: ValueMode, a: Model, b: Model, i: int) {
    0 <= i < |order| && AgreeBelow(order, a, b, i) &&
    a(order[i]) == Minimal(mode) && b(order[i]) != Minimal(mode)
  }

  ghost predicate LexLess(order: seq<nat>, mode: ValueMode, a: Model, b: Model) {
    exists i :: LessAt(order, mode, a, b, i)
  }

  ghost predicate LexLeast(order: seq<nat>, mode: ValueMode, f: set<Clause>, m: Model) {
    Models(m, f) && forall b :: Models(b, f) ==> !LexLess(order, mode, b, m)
  }

  lemma LexLessAsymmetric(order: seq<nat>, mode: ValueMode, a: Model, b: Model)
    requires LexLess(order, mode, a, b)
    ensures !LexLess(order, mode, b, a)
  {
    var i :| LessAt(order, mode, a, b, i);
    forall j ensures !LessAt(order, mode, b, a, j) {
    }
  }

  /** No model of `f` beats `m` on the first `i` variables of the order. */
  ghost predicate LeastUpTo(order: seq<nat>, mode: ValueMode, f: set<Clause>, m: Model, i: nat) {
    Models(m, f) && forall b, j :: Models(b, f) && j < i ==> !LessAt(order, mode, b, m, j)
  }

  lemma {:induction false} ExtendLeast(order: seq<nat>, mode: ValueMode, f: set<Clause>, m: Model, i: nat)
    returns (least: Model)
    requires i <= |order| && LeastUpTo(order, mode, f, m, i)
    ensures LeastUpTo(order, mode, f, least, |order|)
    decreases |order| - i
  {
    if i == |order| {
      least := m;
    } else {
      var next := m;
      if b :| Models(b, f) && LessAt(order, mode, b, m, i) {
        next := b;
        forall a, j | Models(a, f) && j < i + 1 ensures !LessAt(order, mode, a, b, j) {
          if LessAt(order, mode, a, b, j) && j < i {
            assert LessAt(order, mode, a, m, j);
          }
        }
      }
      least := ExtendLeast(order, mode, f, next, i + 1);
    }
  }

  /** A satisfiable formula has a lexicographically least model. */
  lemma LexLeastExists(order: seq<nat>, mode: ValueMode, f: set<Clause>)
    requires Satisfiable(f)
    ensures exists m :: LexLeast(order, mode, f, m)
  {
    var m :| Models(m, f);
    var least := ExtendLeast(order, mode, f, m, 0);
    forall b | Models(b, f) ensures !LexLess(order, mode, b, least) {
      assert forall j :: LessAt(order, mode, b, least, j) ==> j < |order|;
    }
    assert LexLeast(order, mode, f, least);
  }
}
