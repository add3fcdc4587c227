/** What conflicts leave behind. */
module Counting {
  // Every conflict above level 0 adds one learnt clause, or one fact when that clause is a unit.

  import opened Logic
  import opened Trails

  /** The variables assigned at level 0 that nothing forces: units of the formula and learnt ones. */
  ghost function Facts(t: Trail): set<nat> {
    set v | v in t.assigns && Level(t, v) == 0 && ReasonOf(t, v).NoReason?
  }

  ghost function Stock(ca: Clauses, t: Trail): nat { |ca| + |Facts(t)| }

  /** The learnt clause is stored unless it is a unit, and its first literal asserted at the level
      returned to. */
  ghost predicate Learns(ca: Clauses, t: Trail, learnt: Clause, level: nat, cb: Clauses, u: Trail) {
    level < |t.lim| && t.lim[level] <= |t.lits| && learnt != [] &&
    var b := Backtracked(t, level);
    if |learnt| == 1 then cb == ca && u == Enqueued(b, learnt[0], NoReason)
    else exists cr: nat :: cr !in ca && cb == ca[cr := learnt] && u == Enqueued(b, learnt[0], Because(cr))
  }

  lemma FactsBacktracked(t: Trail, level: nat)
    requires Ok(t) && level < |t.lim|
    ensures t.lim[level] <= |t.lits| && Facts(Backtracked(t, level)) == Facts(t)
  {
    hide Pos;
    BacktrackedOk(t, level);
    var u := Backtracked(t, level);
    forall v | v in Facts(t) ensures v in Facts(u) {
      var i := Pos(t.lits, v);
      assert t.lits[i].variable == v;
    }
  }

  lemma FactsDecided(t: Trail)
    ensures Facts(Decided(t)) == Facts(t)
  {
  }

  lemma FactsEnqueued(t: Trail, p: Literal, from: Reason)
    requires p.variable !in t.assigns
    ensures |Facts(Enqueued(t, p, from))| == |Facts(t)| + if from.NoReason? && t.lim == [] then 1 else 0
  {
    FactsWith(t, p, from);
    assert p.variable !in Facts(t);
  }

  lemma FactsWith(t: Trail, p: Literal, from: Reason)
    requires p.variable !in t.assigns
    ensures Facts(Enqueued(t, p, from)) == if from.NoReason? && t.lim == [] then Facts(t) + {p.variable} else Facts(t)
  {
    var u := Enqueued(t, p, from);
    forall v | v != p.variable ensures v in Facts(u) <==> v in Facts(t) {
      assert v in u.assigns <==> v in t.assigns;
      assert Level(u, v) == Level(t, v) && ReasonOf(u, v) == ReasonOf(t, v);
    }
  }

  lemma OneMore(ca: Clauses, cr: nat, c: Clause)
    requires cr !in ca
    ensures |ca[cr := c]| == |ca| + 1
  {
    assert ca[cr := c].Keys == ca.Keys + {cr};
  }

  /** One conflict, one clause or fact more. */
  lemma LearnsOne(ca: Clauses, t: Trail, learnt: Clause, level: nat, cb: Clauses, u: Trail)
    requires Ok(t) && Learns(ca, t, learnt, level, cb, u) && (|learnt| == 1 ==> level == 0)
    requires learnt[0].variable !in Backtracked(t, level).assigns
    ensures Stock(cb, u) == Stock(ca, t) + 1
  {
    hide Ok, Backtracked, Facts, Enqueued;
    FactsBacktracked(t, level);
    BacktrackedLim(t, level);
    var b := Backtracked(t, level);
    if |learnt| == 1 {
      FactsEnqueued(b, learnt[0], NoReason);
    } else {
      var cr :| cr !in ca && cb == ca[cr := learnt] && u == Enqueued(b, learnt[0], Because(cr));
      FactsEnqueued(b, learnt[0], Because(cr));
      OneMore(ca, cr, learnt);
    }
  }

  lemma BacktrackedLim(t: Trail, level: nat)
    requires level < |t.lim| && t.lim[level] <= |t.lits|
    ensures Backtracked(t, level).lim == t.lim[..level]
  {
  }
}
