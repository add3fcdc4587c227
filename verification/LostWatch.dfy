/** An emitted clause that loses the watch invariant. */
module LostWatch {
  import opened Logic
  import opened Lookup
  import opened Soundness
  import opened Runs
  import opened RunBuilding
  import opened PlainGenerators
  import opened SolverHook
  import Alignment
  import Trails
  import Watching
  import Propagation
  import Analysis
  import Minimisation

  /** (0 1)(2 3) */
  function Partners(): seq<nat> { [1, 0, 3, 2] }

  lemma Exchange() returns (g: Generator)
    ensures IsPlain(g, Partners()) && ValidGenerator(g) && Involution(g)
  {
    g := Plain(Partners());
    forall l | l in g.inverse ensures g.inverse[l] in g.inverse && g.inverse[g.inverse[l]] == l {
      var k := g.inverse[l];
      assert MovesImage(g.inverse, l);
      assert g.InverseOf(l) == Literal(Partners()[l.variable], l.positive);
      assert g.InverseOf(k) == Literal(Partners()[k.variable], k.positive);
    }
  }

  // ---------------------------------------------------------------- what is decided and notified

  /** What the solver decides before the last literal. */
  function Earlier(): seq<Literal> { [Neg(1), Neg(2), Pos(3)] }

  function Chosen(): Partial { map[1 := false, 2 := false, 3 := true, 0 := false] }

  lemma EarlierValues()
    ensures FreshTrail(map[], Earlier()) && 0 !in AssignedBy(map[], Earlier())
    ensures AssignedBy(map[], Earlier())[0 := false] == Chosen()
  {
    var a, b, c := Earlier()[0], Earlier()[1], Earlier()[2];
    assert [a, b, c][..2] == [a, b] && [a, b][..1] == [a] && [a][..0] == [];
    assert AssignedBy(map[], [a]) == map[1 := false] && FreshTrail(map[], [a]);
    assert AssignedBy(map[], [a, b]) == map[1 := false, 2 := false] && FreshTrail(map[], [a, b]);
  }

  /** The four literals as decisions, one to a level. */
  function Trail(): Trails.Trail {
    Trails.Trail([Neg(1), Neg(2), Pos(3), Neg(0)], [0, 1, 2, 3], Chosen(), Data())
  }

  function Data(): map<nat, Trails.VarData> {
    map[1 := Trails.VarData(Trails.NoReason, 1), 2 := Trails.VarData(Trails.NoReason, 2),
        3 := Trails.VarData(Trails.NoReason, 3), 0 := Trails.VarData(Trails.NoReason, 4)]
  }

  /** Where a variable is on the trail, and its level less one. */
  function Place(v: nat): nat { if v == 0 then 3 else v - 1 }

  lemma TrailAt(i: nat)
    requires i < 4
    ensures var t, l := Trail(), Trail().lits[i];
            |t.lits| == |t.lim| == 4 && t.lim[i] == i && l.variable < 4 && Place(l.variable) == i &&
            Trails.IsTrue(t, l) && l.variable in t.vardata && Trails.Level(t, l.variable) == i + 1 &&
            Trails.ReasonOf(t, l.variable) == Trails.NoReason
  {
  }

  lemma VariableAt(v: nat)
    requires v in Trail().assigns
    ensures v < 4 && Place(v) < 4 && Trail().lits[Place(v)].variable == v
  {
  }

  lemma TrailOk()
    ensures Trails.Ok(Trail())
  {
    hide Trail, Trails.Pos, Place, Trails.IsTrue;
    var t := Trail();
    TrailAt(0);
    forall i | 0 <= i < 4
      ensures t.lim[i] == i && Trails.IsTrue(t, t.lits[i]) && t.lits[i].variable in t.vardata &&
              Place(t.lits[i].variable) == i && Trails.Level(t, t.lits[i].variable) == i + 1
    {
      TrailAt(i);
    }
    forall v | v in t.assigns ensures Trails.Pos(t.lits, v) < |t.lits| {
      VariableAt(v);
    }
  }

  lemma TrailDecides()
    ensures Analysis.Decisive(Trail()) && Trails.Reasoned(map[], Trail())
  {
    hide Trail, Trails.Pos, Place, Trails.IsTrue, Trails.Level;
    var t := Trail();
    TrailAt(0);
    forall i | 0 <= i < 4
      ensures t.lim[i] == i && Trails.Level(t, t.lits[i].variable) == i + 1 &&
              Trails.ReasonOf(t, t.lits[i].variable) == Trails.NoReason
    {
      TrailAt(i);
    }
  }

  lemma TrailSteady()
    ensures Propagation.Steady(map[], map[], Trail(), 4) && Analysis.Decisive(Trail())
  {
    TrailOk();
    TrailDecides();
    hide Trail, Trails.Ok, Trails.Reasoned, Analysis.Decisive;
    TrailAt(3);
  }

  lemma TrailCovers(s: System)
    requires s.values == Chosen()
    ensures Covers(Trail(), s.values) && |Trail().lits| == |Trail().lim| == 4
  {
  }

  lemma ExchangeReduces(g: Generator)
    requires IsPlain(g, Partners()) && ValidGenerator(g)
    ensures StopsAt(g, Chosen(), 0, 2) && Verdict(g, Chosen(), 2) == REDUCER && DecidedAt(g, Chosen(), 2)
    ensures Moves(g.inverse, 0) && HeadOpen(g, AssignedBy(map[], Earlier()))
  {
    EarlierValues();
    assert Differs(Partners(), Chosen(), 2);
    ReducesAt(g, Partners(), Chosen(), 2);
    PairValue(g, Partners(), Chosen(), 0);
  }

  // ---------------------------------------------------------------- the clause

  /** The emitted clause: slot 0 holds a literal of level 1. */
  ghost predicate IsExpected(c: Clause) {
    |c| >= 2 && c[0] == Pos(1) && c[1] == Pos(0) && forall l :: l in c <==> l in {Pos(0), Pos(1), Pos(2), Neg(3)}
  }

  lemma ExpectedClause(g: Generator, c: Clause)
    requires IsPlain(g, Partners()) && ValidGenerator(g) && DecidedAt(g, Chosen(), 2) && IsEsbp(g, Chosen(), 0, 2, c)
    ensures IsExpected(c)
  {
    EsbpSize(g, Chosen(), 0, 2, c);
    PairValue(g, Partners(), Chosen(), 0);
    hide ValidGenerator, DecidedAt, IsEsbp, IsPlain;
    forall v: nat | v < 4 ensures v in Chosen() && FalseLiteral(Chosen(), v) in c {
      Mentioned(g, c, v);
    }
    forall l | l in c ensures l in {Pos(0), Pos(1), Pos(2), Neg(3)} {
      Forbidden(g, c, l);
    }
    assert FalseLiteral(Chosen(), 0) in c && FalseLiteral(Chosen(), 1) in c;
    assert FalseLiteral(Chosen(), 2) in c && FalseLiteral(Chosen(), 3) in c;
  }

  lemma Mentioned(g: Generator, c: Clause, v: nat)
    requires IsPlain(g, Partners()) && DecidedAt(g, Chosen(), 2) && IsEsbp(g, Chosen(), 0, 2, c) && v < 4
    ensures v in Chosen() && FalseLiteral(Chosen(), v) in c
  {
    var i := if v < 2 then 0 else 2;
    PairValue(g, Partners(), Chosen(), i);
    assert InPair(g, i, 2, v);
    hide DecidedAt, IsEsbp, IsPlain, InPair;
    EsbpMentions(g, Chosen(), 0, 2, c, v);
  }

  lemma Forbidden(g: Generator, c: Clause, l: Literal)
    requires IsEsbp(g, Chosen(), 0, 2, c) && l in c
    ensures l in {Pos(0), Pos(1), Pos(2), Neg(3)}
  {
    assert Forbids(g, Chosen(), 0, 2, l);
  }

  lemma ExpectedSole(c: Clause)
    requires IsExpected(c)
    ensures Analysis.SoleCurrent(Trail(), c) && Analysis.IsConflict(Trail(), c)
    ensures Trails.Level(Trail(), 1) == 1 && Trails.Level(Trail(), 3) == 3 && Trails.Level(Trail(), 0) == 4
    ensures forall l :: l in c ==> Minimisation.Undroppable(Trail(), l, 2)
  {
    assert c[1] in c;
  }

  lemma ExpectedLearnt(c: Clause)
    requires IsExpected(c)
    ensures exists learnt, level ::
              Minimisation.Asserting(Trail(), learnt, level) && Minimisation.LearntFrom(Trail(), c, learnt, 2)
  {
    var learnt := [Pos(0), Neg(3), Pos(1), Pos(2)];
    assert forall l :: l in learnt <==> l in c;
    assert Minimisation.Asserting(Trail(), learnt, 3) && Minimisation.LearntFrom(Trail(), c, learnt, 2);
  }

  // ---------------------------------------------------------------- the loss

  /** Attached, backtracked from and with slot 1 asserted, the clause leaves the invariant broken. */
  ghost predicate Loses(t: Trails.Trail, c: Clause, level: nat, from: Trails.Reason) {
    level < |t.lim| && t.lim[level] <= |t.lits| && |c| >= 2 &&
    var ca, ws: Watching.WatchLists := map[0 := c], Watching.Attached(map[], 0, c);
    Watching.Shaped(ca, ws) &&
    !Watching.Stable(ca, ws, Trails.Backtracked(t, level), t.lim[level]) &&
    !Watching.Stable(ca, ws, Trails.Enqueued(Trails.Backtracked(t, level), c[1], from), t.lim[level])
  }

  lemma ExpectedLoses(c: Clause, learnt: Clause, level: nat, ccminMode: int, from: Trails.Reason)
    requires IsExpected(c) && Watching.Proper(c)
    requires Minimisation.Asserting(Trail(), learnt, level)
    requires Minimisation.LearntFrom(Trail(), c, learnt, ccminMode)
    ensures learnt[0] == c[1] && Loses(Trail(), c, level, from)
  {
    ExpectedSole(c);
    LearntFromEmitted(Trail(), c, learnt, level, ccminMode);
    TrailSteady();
    hide Trail, Propagation.Steady;
    var t := Trail();
    assert Neg(3) in c;
    StartsAtLimit(map[], map[], t, 4, level);
    InjectedStable(map[], map[], t, 4, 0, c, level);
    EmittedAsserted(map[], map[], t, 4, 0, c, level, from);
    var none: Trails.Clauses := map[];
    assert none[0 := c] == map[0 := c];
  }

  /** So it is whatever clause and level the analysis finds, and it finds some. */
  ghost predicate LosesAnyway(t: Trails.Trail, c: Clause) {
    |c| >= 2 &&
    (exists learnt, level :: Minimisation.Asserting(t, learnt, level) && Minimisation.LearntFrom(t, c, learnt, 2)) &&
    forall learnt, level, ccminMode, from
      {:trigger Minimisation.LearntFrom(t, c, learnt, ccminMode), Loses(t, c, level, from)} ::
      Minimisation.Asserting(t, learnt, level) && Minimisation.LearntFrom(t, c, learnt, ccminMode) ==>
        learnt[0] == c[1] && Loses(t, c, level, from)
  }

  lemma ExpectedLosesAnyway(c: Clause)
    requires IsExpected(c) && Watching.Proper(c)
    ensures LosesAnyway(Trail(), c)
  {
    ExpectedLearnt(c);
    hide Trail, Loses, Minimisation.LearntFrom;
    forall learnt, level, ccminMode, from
      | Minimisation.Asserting(Trail(), learnt, level) && Minimisation.LearntFrom(Trail(), c, learnt, ccminMode)
      ensures learnt[0] == c[1] && Loses(Trail(), c, level, from)
    {
      ExpectedLoses(c, learnt, level, ccminMode, from);
    }
  }

  /** An emitted clause for which the invariant is lost, although the generator is an involution and
      the solver has done nothing but decide. */
  lemma InvariantLost()
    returns (g: Generator, s: System, u: System, l: Literal, c: Clause, v: System, t: Trails.Trail)
    ensures ValidGenerator(g) && Involution(g) && Alignment.Trustworthy(g)
    ensures Reaches([g], s, u, false) && NotifyEmits([g], u, l, {0}, 0, c, v)
    ensures Covers(t, v.values) && Trails.Level(t, l.variable) == |t.lim|
    ensures Propagation.Steady(map[], map[], t, |t.lits|) && Analysis.Decisive(t) && Analysis.IsConflict(t, c)
    ensures LosesAnyway(t, c)
  {
    hide *;
    g := Exchange();
    Alignment.InvolutionTrustworthy(g);
    s, u, l, c, v := EmissionOf(g);
    t := Trail();
    TrailSteady();
    ExpectedSole(c);
    TrailCovers(v);
    EmittedProper(g, u, l, c, v, t);
    ExpectedLosesAnyway(c);
  }

  lemma EmissionOf(g: Generator) returns (s: System, u: System, l: Literal, c: Clause, v: System)
    requires IsPlain(g, Partners()) && ValidGenerator(g)
    ensures Reaches([g], s, u, false) && Inv([g], map[], u) && NotifyEmits([g], u, l, {0}, 0, c, v)
    ensures l == Neg(0) && l.variable == 0 && v.values == Chosen() && IsExpected(c) && |c| >= 2
  {
    ExchangeReduces(g);
    EarlierValues();
    s := Start([g]);
    l := Neg(0);
    u, v, c := ClimbAndEmit([g], s, Earlier(), l, 0, 2);
    ExpectedClause(g, c);
  }

  lemma EmittedProper(g: Generator, u: System, l: Literal, c: Clause, v: System, t: Trails.Trail)
    requires ValidGenerator(g) && Inv([g], map[], u) && NotifyEmits([g], u, l, {0}, 0, c, v) && |c| >= 2
    requires Covers(t, v.values) && Trails.Level(t, l.variable) == |t.lim|
    ensures Watching.Proper(c)
  {
    hide Inv, NotifyEmits, ValidGenerator, Covers;
    assert forall i :: 0 <= i < |[g]| ==> ValidGenerator([g][i]);
    EmittedStartsAnalysis([g], map[], u, l, {0}, 0, c, v, t);
  }
}
