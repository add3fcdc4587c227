/** A run of rotations that is unsound. */
module LongCycles {
  // A concrete satisfiable formula, two rotations of it, and a run whose clauses make it
  // unsatisfiable.

  import opened Logic
  import opened LexLeader
  import opened Lookup
  import opened Soundness
  import opened Runs
  import opened RunBuilding
  import opened PlainGenerators

  /** Over six variables, with every cycle of length three. */
  ghost predicate IsRotation(g: Generator, images: seq<nat>) {
    |images| == 6 && IsPlain(g, images) && forall v :: 0 <= v < 6 ==> images[images[images[v]]] == v
  }

  /** Exactly one of the variables 0, 3, 4 is false, and 1, 2, 5 are their negations. */
  ghost function RingClauses(): seq<Clause> {
    [[Pos(0), Pos(3)], [Pos(0), Pos(4)], [Pos(3), Pos(4)],
     [Pos(0), Pos(1)], [Pos(3), Pos(2)], [Pos(4), Pos(5)],
     [Neg(0), Neg(1)], [Neg(3), Neg(2)], [Neg(4), Neg(5)]]
  }

  ghost function Ring(): set<Clause> { (set c | c in RingClauses()) + {[Neg(0), Neg(3), Neg(4)]} }

  lemma TwoLiterals(g: Generator, c: Clause, d: Clause, d0: Literal, d1: Literal)
    requires |c| == |d| == 2 && g.InverseOf(c[0]) == d0 && g.InverseOf(c[1]) == d1
    requires (d[0] == d0 && d[1] == d1) || (d[0] == d1 && d[1] == d0)
    ensures IsImageOf(g, c, d)
  {
    forall l ensures l in d <==> exists x :: x in c && g.InverseOf(x) == l {
      assert c[0] in c && c[1] in c;
      assert l in d <==> l == d0 || l == d1;
    }
  }

  lemma ThreeLiterals(g: Generator, c: Clause, d: Clause, d0: Literal, d1: Literal, d2: Literal)
    requires |c| == |d| == 3 && g.InverseOf(c[0]) == d0 && g.InverseOf(c[1]) == d1 && g.InverseOf(c[2]) == d2
    requires (d0 == d[2] && d1 == d[0] && d2 == d[1]) || (d0 == d[1] && d1 == d[2] && d2 == d[0])
    ensures IsImageOf(g, c, d)
  {
    forall l ensures l in d <==> exists x :: x in c && g.InverseOf(x) == l {
      assert c[0] in c && c[1] in c && c[2] in c;
      assert l in d <==> l == d0 || l == d1 || l == d2;
    }
  }

  /** The position of the clause onto which clause `i` is mapped. */
  ghost predicate PairRotates(images: seq<nat>, c: Clause, d: Clause)
    requires |images| == 6
  {
    |c| == |d| == 2 && c[0].variable < 6 && c[1].variable < 6 &&
    var d0 := Literal(images[c[0].variable], c[0].positive);
    var d1 := Literal(images[c[1].variable], c[1].positive);
    (d[0] == d0 && d[1] == d1) || (d[0] == d1 && d[1] == d0)
  }

  ghost predicate RingMaps(images: seq<nat>, to: seq<nat>)
    requires |images| == 6 && |to| == 9
  {
    forall i {:trigger to[i]} :: 0 <= i < 9 ==> to[i] < 9 && PairRotates(images, RingClauses()[i], RingClauses()[to[i]])
  }

  lemma RingIsSymmetric(g: Generator, images: seq<nat>, to: seq<nat>)
    requires |images| == 6 && |to| == 9 && IsRotation(g, images)
    requires RingMaps(images, to)
    requires (images[0] == 4 && images[3] == 0 && images[4] == 3) ||
        (images[0] == 3 && images[3] == 4 && images[4] == 0)
    ensures IsSymmetry(g, Ring())
  {
    forall c | c in Ring() ensures HasImage(g, Ring(), c) {
      if c in RingClauses() {
        var i :| 0 <= i < 9 && RingClauses()[i] == c;
        var d := RingClauses()[to[i]];
        assert PairRotates(images, c, d);
        TwoLiterals(g, c, d, g.InverseOf(c[0]), g.InverseOf(c[1]));
        assert d in Ring() && IsImageOf(g, c, d);
      } else {
        ThreeLiterals(g, c, c, g.InverseOf(c[0]), g.InverseOf(c[1]), g.InverseOf(c[2]));
        assert IsImageOf(g, c, c);
      }
    }
  }

  lemma RingRotations()
    ensures RingMaps(Images(0), [1, 2, 0, 5, 3, 4, 8, 6, 7])
    ensures RingMaps(Images(1), [2, 0, 1, 4, 5, 3, 7, 8, 6])
  {
  }

  /** The three models of the formula, each with the values one phase of the run assigns. */
  ghost function Values(i: nat): Partial {
    if i == 0 then map[4 := true, 1 := false, 5 := false, 2 := true, 0 := true]
    else if i == 1 then map[3 := true, 1 := false, 2 := false, 5 := true, 0 := true]
    else map[4 := true, 0 := false]
  }

  lemma RingModels(m: Model)
    requires Models(m, Ring())
    ensures Extends(m, Values(0)) || Extends(m, Values(1)) || Extends(m, Values(2))
  {
    var cs := RingClauses();
    forall i | 0 <= i < 9 ensures Holds(m, cs[i][0]) || Holds(m, cs[i][1]) {
      assert cs[i] in Ring();
      var l :| l in cs[i] && Holds(m, l);
    }
    assert cs[0] == [Pos(0), Pos(3)] && cs[1] == [Pos(0), Pos(4)] && cs[2] == [Pos(3), Pos(4)];
    assert cs[3] == [Pos(0), Pos(1)] && cs[4] == [Pos(3), Pos(2)] && cs[5] == [Pos(4), Pos(5)];
    assert cs[6] == [Neg(0), Neg(1)] && cs[7] == [Neg(3), Neg(2)] && cs[8] == [Neg(4), Neg(5)];
    assert Satisfies(m, [Neg(0), Neg(3), Neg(4)]);
  }

  lemma RingSatisfiable()
    ensures Satisfiable(Ring())
  {
    var m: Model := v => v == 0 || v == 4 || v == 2;
    forall c | c in Ring() ensures Satisfies(m, c) {
      assert Holds(m, c[0]) || Holds(m, c[1]);
      assert c[0] in c && c[1] in c;
    }
    assert Models(m, Ring());
  }

  lemma FourAssigned(a: Literal, b: Literal, c: Literal, d: Literal)
    requires NoRepeats([a.variable, b.variable, c.variable, d.variable])
    ensures FreshTrail(map[], [a, b, c, d])
    ensures AssignedBy(map[], [a, b, c, d]) ==
            map[a.variable := a.positive, b.variable := b.positive, c.variable := c.positive, d.variable := d.positive]
  {
    var vs := [a.variable, b.variable, c.variable, d.variable];
    assert vs[0] != vs[1] && vs[0] != vs[2] && vs[0] != vs[3] && vs[1] != vs[2] && vs[1] != vs[3] && vs[2] != vs[3];
    assert [a, b, c, d][..3] == [a, b, c] && [a, b, c][..2] == [a, b] && [a, b][..1] == [a] && [a][..0] == [];
    assert AssignedBy(map[], [a]) == map[a.variable := a.positive] && FreshTrail(map[], [a]);
    assert AssignedBy(map[], [a, b]) == map[a.variable := a.positive, b.variable := b.positive] &&
      FreshTrail(map[], [a, b]);
    assert AssignedBy(map[], [a, b, c]) ==
      map[a.variable := a.positive, b.variable := b.positive, c.variable := c.positive];
    assert FreshTrail(map[], [a, b, c]);
  }

  ghost predicate Excludes(c: Clause, p: Partial) {
    forall m :: Extends(m, p) ==> !Satisfies(m, c)
  }

  ghost predicate Heads(gens: seq<Generator>) {
    forall j :: 0 <= j < |gens| ==> ValidGenerator(gens[j]) && |gens[j].lookup| > 0 && gens[j].lookup[0] == Pos(0)
  }

  /** The literals assigned before variable 0 in each phase. */
  function Prelude(i: nat): seq<Literal> {
    if i == 0 then [Pos(4), Neg(1), Neg(5), Pos(2)]
    else if i == 1 then [Pos(3), Neg(1), Neg(2), Pos(5)]
    else [Pos(4)]
  }

  lemma PreludeValues(i: nat)
    requires i < 3
    ensures FreshTrail(map[], Prelude(i)) && 0 !in AssignedBy(map[], Prelude(i))
    ensures AssignedBy(map[], Prelude(i))[0 := i < 2] == Values(i)
  {
    if i == 0 {
      FourAssigned(Pos(4), Neg(1), Neg(5), Pos(2));
    } else if i == 1 {
      FourAssigned(Pos(3), Neg(1), Neg(2), Pos(5));
    } else {
      assert [Pos(4)][..0] == [];
      assert AssignedBy(map[], [Pos(4)]) == map[4 := true];
    }
  }

  ghost function Images(i: nat): seq<nat> { if i == 1 then [3, 2, 5, 4, 0, 1] else [4, 5, 1, 0, 3, 2] }

  lemma PhaseDiffers(i: nat)
    requires i < 3
    ensures Differs(Images(i), Values(i), if i < 2 then 2 else 0)
  {
  }

  /** Phase `i` assigns its prelude and then variable 0; generator `r` emits. */
  lemma RingPhase(gens: seq<Generator>, s: System, i: nat, r: nat) returns (t: System, c: Clause)
    requires Heads(gens) && Inv(gens, map[], s) && s.trail == []
    requires i < 3 && r < |gens| && IsRotation(gens[r], Images(i))
    ensures forall z :: Reaches(gens, z, s, false) ==> Reaches(gens, z, t, false)
    ensures Inv(gens, map[], t) && t.trail == [] && t.emitted == s.emitted + {c}
    ensures Excludes(c, Values(i))
  {
    PreludeValues(i);
    PhaseDiffers(i);
    ReducesAt(gens[r], Images(i), Values(i), if i < 2 then 2 else 0);
    PairValue(gens[r], Images(i), map[], 0);
    t, c := Phase(gens, s, Prelude(i), Literal(0, i < 2), r, if i < 2 then 2 else 0);
    forall m | Extends(m, Values(i)) ensures !Satisfies(m, c) {
      EsbpIsFalsified(gens[r], Values(i), 0, if i < 2 then 2 else 0, c);
    }
  }

  /** A run over the two rotations emits clauses that no model of the formula satisfies. */
  lemma RingRun(gens: seq<Generator>) returns (s: System, t: System)
    requires Heads(gens) && |gens| == 2
    requires IsRotation(gens[0], Images(0)) && IsRotation(gens[1], Images(1))
    ensures Init(gens, map[], s) && Reaches(gens, s, t, false)
    ensures !Satisfiable(Ring() + t.emitted)
  {
    s := Start(gens);
    var u, a := RingPhase(gens, s, 0, 0);
    var w, b := RingPhase(gens, u, 1, 1);
    var c;
    t, c := RingPhase(gens, w, 2, 0);
    RingBroken(a, b, c, t.emitted);
  }

  lemma RingBroken(a: Clause, b: Clause, c: Clause, emitted: set<Clause>)
    requires {a, b, c} <= emitted
    requires Excludes(a, Values(0)) && Excludes(b, Values(1)) && Excludes(c, Values(2))
    ensures !Satisfiable(Ring() + emitted)
  {
    forall m ensures !Models(m, Ring() + emitted) {
      if Models(m, Ring()) {
        RingModels(m);
      }
    }
  }

  lemma RotationsAreSymmetries(g: Generator, h: Generator)
    requires IsRotation(g, Images(0)) && IsRotation(h, Images(1))
    ensures IsSymmetry(g, Ring()) && IsSymmetry(h, Ring())
  {
    RingRotations();
    RingIsSymmetric(g, Images(0), [1, 2, 0, 5, 3, 4, 8, 6, 7]);
    RingIsSymmetric(h, Images(1), [2, 0, 1, 4, 5, 3, 7, 8, 6]);
  }

  lemma RotationsShareOrder(g: Generator, h: Generator)
    requires IsRotation(g, Images(0)) && IsRotation(h, Images(1))
    ensures SameOrder(g, h)
  {
  }

  ghost predicate Symmetries(gens: seq<Generator>, f: set<Clause>) {
    forall j {:trigger gens[j]} :: 0 <= j < |gens| ==> IsSymmetry(gens[j], f)
  }

  ghost predicate ShareOrder(gens: seq<Generator>) {
    forall j :: 0 <= j < |gens| ==> SameOrder(gens[0], gens[j])
  }

  /** `f` has the symmetries `gens`, is satisfiable, and no longer is with a run's clauses. */
  ghost predicate Breaks(gens: seq<Generator>, f: set<Clause>, s: System, t: System) {
    Symmetries(gens, f) && ShareOrder(gens) && (forall j :: 0 <= j < |gens| ==> ValidGenerator(gens[j])) &&
    Init(gens, map[], s) && Reaches(gens, s, t, false) &&
    Satisfiable(f) && !Satisfiable(f + t.emitted)
  }

  ghost predicate SameOrder(g: Generator, h: Generator) {
    g.order == h.order && g.ranks == h.ranks && g.mode == h.mode
  }

  /** The rotation (0 4 3)(1 5 2) and its inverse. */
  ghost predicate TwoRotations(gens: seq<Generator>) {
    |gens| == 2 && IsRotation(gens[0], Images(0)) && IsRotation(gens[1], Images(1))
  }

  /** With cycles longer than two the injected clauses can make a satisfiable formula
      unsatisfiable, even if the solver answers every clause: the formula `Ring` with two rotations. */
  lemma LongCyclesUnsound()
    ensures exists gens, s, t :: TwoRotations(gens) && Breaks(gens, Ring(), s, t)
  {
    var gens := TheRotations();
    var s, t := RingRun(gens);
    RotationsAreSymmetries(gens[0], gens[1]);
    RotationsShareOrder(gens[0], gens[1]);
    TwoGenerators(gens, Ring());
    RingSatisfiable();
    RotationsBreak(gens, Ring(), s, t);
  }

  lemma TheRotations() returns (gens: seq<Generator>)
    ensures |gens| == 2 && Heads(gens) && IsRotation(gens[0], Images(0)) && IsRotation(gens[1], Images(1))
  {
    hide ValidGenerator, IsPlain;
    ImagesRotate(0);
    ImagesRotate(1);
    var g := Plain(Images(0));
    var h := Plain(Images(1));
    gens := [g, h];
    hide Images;
    HeadOf(g, Images(0));
    HeadOf(h, Images(1));
  }

  lemma ImagesRotate(i: nat)
    ensures Moving(Images(i)) && |Images(i)| == 6 && forall v :: 0 <= v < 6 ==> Images(i)[Images(i)[Images(i)[v]]] == v
  {
  }

  lemma HeadOf(g: Generator, images: seq<nat>)
    requires |images| == 6 && IsPlain(g, images)
    ensures |g.lookup| > 0 && g.lookup[0] == Pos(0)
  {
  }

  lemma RotationsBreak(gens: seq<Generator>, f: set<Clause>, s: System, t: System)
    requires Heads(gens) && ShareOrder(gens) && Symmetries(gens, f)
    requires Init(gens, map[], s) && Reaches(gens, s, t, false) && Satisfiable(f) && !Satisfiable(f + t.emitted)
    ensures Breaks(gens, f, s, t)
  {
  }

  lemma TwoGenerators(gens: seq<Generator>, f: set<Clause>)
    requires |gens| == 2 && SameOrder(gens[0], gens[1]) && IsSymmetry(gens[0], f) && IsSymmetry(gens[1], f)
    ensures ShareOrder(gens) && Symmetries(gens, f)
  {
    forall j | 0 <= j < |gens| ensures IsSymmetry(gens[j], f) {
      assert gens[j] == gens[0] || gens[j] == gens[1];
    }
  }
}
