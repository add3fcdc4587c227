/** The level filter of clause minimisation. */
module LevelFilter {
  // It cuts the exploration short and loses nothing.

  import opened Logic
  import opened Trails
  import opened Watching
  import opened Propagation
  import opened Analysis
  import opened Reaching
  import opened Minimisation

  /** Of a propagated reason some other literal is of the same level: the watch invariant puts it in slot 1. */
  lemma ReasonLevel(ca: Clauses, ws: WatchLists, t: Trail, q: nat, i: nat)
    requires Steady(ca, ws, t, q) && i < |t.lits| && ReasonOf(t, t.lits[i].variable).Because?
    ensures ReasonOf(t, t.lits[i].variable).cref in ca
    ensures var c := ca[ReasonOf(t, t.lits[i].variable).cref];
            |c| >= 2 && c[0] == t.lits[i] && IsFalse(t, c[1]) && Pos(t.lits, c[1].variable) < i &&
            Level(t, c[1].variable) == Level(t, t.lits[i].variable)
  {
    hide Pos;
    assert ReasonAt(ca, t, i);
    var cr := ReasonOf(t, t.lits[i].variable).cref;
    var c := ca[cr];
    assert Proper(c) && Forces(t, c, i);
    assert FalseBefore(t, c[1], i);
    var j := Pos(t.lits, c[1].variable);
    LevelsGrow(t, j, i);
    if j < q {
      WatchExcused(ca, ws, t, q, cr, i);
    } else {
      CurrentLevel(t, j);
      CurrentLevel(t, i);
    }
  }

  /** A propagated false watch is excused by the forced literal, the only true one. */
  lemma WatchExcused(ca: Clauses, ws: WatchLists, t: Trail, q: nat, cr: nat, i: nat)
    requires Steady(ca, ws, t, q) && cr in ca && i < |t.lits| && Forces(t, ca[cr], i)
    requires |ca[cr]| >= 2 && IsFalse(t, ca[cr][1]) && Pos(t.lits, ca[cr][1].variable) < q
    ensures Level(t, ca[cr][0].variable) <= Level(t, ca[cr][1].variable)
  {
    hide Pos, Ok;
    var c, l := ca[cr], ca[cr][1].Negated();
    assert Watches(c, l.Negated());
    var list := ListOf(ws, l);
    assert Lists(list, cr);
    var k :| 0 <= k < |list| && list[k].cref == cr;
    assert Propagated(t, l, q);
    assert Settles(ca, ws, t, l, k);
    assert Entry(ca, l, list[k]) && Justified(ca, t, l, list[k]);
    if IsTrue(t, list[k].blocker) {
      OnlyTrue(t, c, i, list[k].blocker);
    }
    assert Proper(c);
  }

  lemma BeforeIsFalse(t: Trail, l: Literal, n: nat)
    requires Ok(t) && FalseBefore(t, l, n)
    ensures IsFalse(t, l)
  {
    assert IsTrue(t, t.lits[Pos(t.lits, l.variable)]);
  }

  lemma OnlyTrue(t: Trail, c: Clause, i: nat, l: Literal)
    requires Ok(t) && i < |t.lits| && Forces(t, c, i) && l in c && IsTrue(t, l)
    ensures l == c[0]
  {
    hide Pos;
    var k :| 0 <= k < |c| && c[k] == l;
    if k > 0 {
      BeforeIsFalse(t, c[k], i);
    }
  }

  ghost predicate NoDecisionReached(ca: Clauses, t: Trail, s: set<nat>, v: nat) {
    forall w :: Reaches(ca, t, s, v, w) ==> ReasonOf(t, w).Because?
  }

  lemma ReachedFrom(ca: Clauses, t: Trail, s: set<nat>, v: nat, w: nat)
    requires NoDecisionReached(ca, t, s, v) && Reaches(ca, t, s, v, w)
    ensures NoDecisionReached(ca, t, s, w)
  {
    hide Reaches;
    forall x | Reaches(ca, t, s, w, x) ensures ReasonOf(t, x).Because? {
      ReachesOn(ca, t, s, v, w, x);
    }
  }

  /** Walking back through a level leads to its decision or to something marked. */
  lemma {:induction false} LevelMarked(ca: Clauses, ws: WatchLists, t: Trail, q: nat, s: set<nat>, v: nat)
    requires Steady(ca, ws, t, q) && v in t.assigns && Level(t, v) > 0 && ReasonOf(t, v).Because?
    requires NoDecisionReached(ca, t, s, v)
    ensures Level(t, v) % 32 in Residues(t, s)
    decreases Pos(t.lits, v)
  {
    hide Pos, Steady, Reaches, NoDecisionReached, Needs;
    var i := AssignedAt(ca, ws, t, q, v);
    ReasonLevel(ca, ws, t, q, i);
    var c := ca[ReasonOf(t, v).cref];
    var u := c[1].variable;
    assert Needs(ca, t, v, u) by {
      NeedsSecond(ca, t, v, c);
    }
    if u !in s {
      ReachesNext(ca, t, s, v, u);
      ReachedFrom(ca, t, s, v, u);
      assert ReasonOf(t, u).Because? by {
        ReachedHasReason(ca, t, s, v, u);
      }
      LevelMarked(ca, ws, t, q, s, u);
    }
  }

  lemma ReachedHasReason(ca: Clauses, t: Trail, s: set<nat>, v: nat, w: nat)
    requires NoDecisionReached(ca, t, s, v) && Reaches(ca, t, s, v, w)
    ensures ReasonOf(t, w).Because?
  {
  }

  lemma AssignedAt(ca: Clauses, ws: WatchLists, t: Trail, q: nat, v: nat) returns (i: nat)
    requires Steady(ca, ws, t, q) && v in t.assigns
    ensures i == Pos(t.lits, v) && i < |t.lits| && t.lits[i].variable == v
  {
    i := Pos(t.lits, v);
  }

  lemma NeedsSecond(ca: Clauses, t: Trail, v: nat, c: Clause)
    requires ReasonOf(t, v).Because? && ReasonOf(t, v).cref in ca && c == ca[ReasonOf(t, v).cref]
    requires |c| >= 2 && Level(t, c[1].variable) > 0
    ensures Needs(ca, t, v, c[1].variable)
  {
  }

  /** What is reached is assigned above level 0. */
  lemma ReachedAbove(ca: Clauses, t: Trail, s: set<nat>, v: nat, w: nat)
    requires Ok(t) && Reasoned(ca, t) && v in t.assigns && Reaches(ca, t, s, v, w)
    ensures w in t.assigns && Level(t, w) > 0
  {
    var path :| Chain(ca, t, s, path, v, w);
    ChainAbove(ca, t, s, path, v, w, |path| - 1);
  }

  lemma {:induction false} ChainAbove(ca: Clauses, t: Trail, s: set<nat>, path: seq<nat>, v: nat, w: nat, i: nat)
    requires Ok(t) && Reasoned(ca, t) && v in t.assigns && Chain(ca, t, s, path, v, w) && 1 <= i < |path|
    ensures path[i] in t.assigns && Level(t, path[i]) > 0
  {
    if i > 1 {
      ChainAbove(ca, t, s, path, v, w, i - 1);
    }
    NeededAbove(ca, t, path[i - 1], path[i]);
  }

  lemma NeededAbove(ca: Clauses, t: Trail, v: nat, w: nat)
    requires Ok(t) && Reasoned(ca, t) && v in t.assigns && Needs(ca, t, v, w)
    ensures w in t.assigns && Level(t, w) > 0
  {
    hide Pos;
    var i := Pos(t.lits, v);
    assert ReasonAt(ca, t, i);
    var c := ca[ReasonOf(t, v).cref];
    var k :| 1 <= k < |c| && Level(t, c[k].variable) > 0 && c[k].variable == w;
    assert FalseBefore(t, c[k], i);
  }

  /** Giving up at a level that does not occur among the marked variables changes no answer: a literal is
      removable if and only if no decision is reached from it, filter or not. */
  lemma FilterLosesNothing(ca: Clauses, ws: WatchLists, t: Trail, q: nat, s: set<nat>, v: nat)
    requires Steady(ca, ws, t, q) && v in t.assigns && ReasonOf(t, v).Because?
    ensures Removable(ca, t, s, Residues(t, s), v) <==> NoDecisionReached(ca, t, s, v)
  {
    if NoDecisionReached(ca, t, s, v) {
      forall w | Reaches(ca, t, s, v, w) ensures Passable(t, Residues(t, s), w) {
        ReachedAbove(ca, t, s, v, w);
        ReachedFrom(ca, t, s, v, w);
        ReachedHasReason(ca, t, s, v, w);
        LevelMarked(ca, ws, t, q, s, w);
        assert Level(t, w) % 32 in AbstractLevel(t, w) * Residues(t, s);
      }
    }
  }

  /** So in mode 2 minimisation drops exactly the literals with a reason that no decision outside the clause
      is reached from. */
  lemma DroppedExactly(ca: Clauses, ws: WatchLists, t: Trail, q: nat, s: set<nat>, l: Literal)
    requires Steady(ca, ws, t, q) && IsFalse(t, l)
    ensures Droppable(ca, t, s, l, 2) <==>
            ReasonOf(t, l.variable).Because? && NoDecisionReached(ca, t, s, l.variable)
  {
    hide Steady, NoDecisionReached, Residues;
    if ReasonOf(t, l.variable).Because? {
      FilterLosesNothing(ca, ws, t, q, s, l.variable);
    }
  }
}
