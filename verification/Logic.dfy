/** Literals, clauses and their models. */
module Logic {

  /** A variable with a polarity.  The index encoding `2 * x` / `2 * x + 1` of the
      sources is kept as the function `Index`. */
  datatype Literal = Literal(variable: nat, positive: bool) {
    function Negated(): Literal { Literal(variable, !positive) }

    function Index(): nat { if positive then 2 * variable else 2 * variable + 1 }
  }

  function FromIndex(i: nat): (l: Literal)
    ensures l.Index() == i
    ensures l.Negated().Index() == if i % 2 == 0 then i + 1 else i - 1
  {
    Literal(i / 2, i % 2 == 0)
  }

  type Clause = seq<Literal>

  type Model = nat -> bool

  predicate Holds(m: Model, l: Literal) { m(l.variable) == l.positive }

  ghost predicate Satisfies(m: Model, c: Clause) {
    exists l :: l in c && Holds(m, l)
  }

  ghost predicate Models(m: Model, f: set<Clause>) {
    forall c :: c in f ==> Satisfies(m, c)
  }

  ghost predicate Satisfiable(f: set<Clause>) {
    exists m :: Models(m, f)
  }

  ghost function LiteralsOf(c: Clause): set<Literal> { set l | l in c }

  ghost predicate NoRepeats<T>(s: seq<T>) {
    forall i, j :: 0 <= i < j < |s| ==> s[i] != s[j]
  }

  /** No variable twice. */
  ghost predicate Clean(c: Clause) {
    forall i, j :: 0 <= i < j < |c| ==> c[i].variable != c[j].variable
  }

  ghost predicate VariablesBelow(c: Clause, n: nat) { forall l :: l in c ==> l.variable < n }

  /** A total model takes the values a partial one gives. */
  ghost predicate Extends(m: Model, p: map<nat, bool>) {
    forall v :: v in p ==> m(v) == p[v]
  }

  lemma {:induction false} SubsetSize(a: set<nat>, b: set<nat>)
    requires a <= b
    ensures |a| <= |b| && (|a| == |b| ==> a == b)
  {
    assert b == a + (b - a);
  }

  ghost function ElementsOf<T>(s: seq<T>): set<T> { set x | x in s }

  lemma {:induction false} NoRepeatsSize<T>(s: seq<T>)
    requires NoRepeats(s)
    ensures |ElementsOf(s)| == |s|
  {
    if s != [] {
      var front, last := s[..|s| - 1], s[|s| - 1];
      NoRepeatsSize(front);
      assert s == front + [last];
      assert ElementsOf(s) == ElementsOf(front) + {last};
    }
  }

  /** A number above all of a set. */
  lemma {:induction false} FreshReference(crs: set<nat>) returns (cr: nat)
    ensures cr !in crs && forall x :: x in crs ==> x < cr
  {
    if crs == {} {
      cr := 0;
    } else {
      var x :| x in crs;
      var y := FreshReference(crs - {x});
      cr := if x < y then y else x + 1;
      forall z | z in crs ensures z < cr {
        assert z == x || z in crs - {x};
      }
    }
  }
}
