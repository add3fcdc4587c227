/** What the search relies on: variable bounds, models read off the trail, assumptions. */
module Searching {
  import opened Logic
  import opened Trails
  import opened Analysis
  import opened Reaching
  import opened Minimisation

  /** Only variables below `n` occur. */
  ghost predicate Bounded(ca: Clauses, t: Trail, n: nat) {
    (forall cr, l :: cr in ca && l in ca[cr] ==> l.variable < n) && (forall v :: v in t.assigns ==> v < n)
  }

  ghost predicate AllSatisfied(ca: Clauses, t: Trail) {
    forall cr :: cr in ca ==> exists l :: l in ca[cr] && IsTrue(t, l)
  }

  /** Any extension of an assignment that satisfies every clause is a model. */
  lemma ModelFound(ca: Clauses, t: Trail, m: Model)
    requires Ok(t) && AllSatisfied(ca, t) && Extends(m, t.assigns)
    ensures Fits(m, ca, t)
  {
    hide Pos;
    forall cr | cr in ca ensures Satisfies(m, ca[cr]) {
      var l :| l in ca[cr] && IsTrue(t, l);
      assert Holds(m, l);
    }
    forall i | 0 <= i < |t.lits| ensures Holds(m, t.lits[i]) {
      assert IsTrue(t, t.lits[i]);
    }
  }

  /** Decisions of the first levels are the assumptions. */
  ghost predicate Assumed(t: Trail, assumptions: seq<Literal>) {
    forall i {:trigger t.lits[i]} ::
      0 <= i < |t.lits| && 0 < Level(t, t.lits[i].variable) <= |assumptions| &&
        ReasonOf(t, t.lits[i].variable).NoReason? ==>
      t.lits[i] in assumptions
  }

  function Least(a: nat, b: nat): nat { if a < b then a else b }

  /** The first assumptions are true, each at its own level or below: as many as there are levels. */
  ghost predicate Granted(t: Trail, assumptions: seq<Literal>) {
    forall i :: 0 <= i < Least(|t.lim|, |assumptions|) ==>
      IsTrue(t, assumptions[i]) && Level(t, assumptions[i].variable) <= i + 1
  }

  lemma GrantedMeans(t: Trail, assumptions: seq<Literal>)
    requires Granted(t, assumptions)
    ensures forall i :: 0 <= i < Least(|t.lim|, |assumptions|) ==> IsTrue(t, assumptions[i])
  {
  }

  lemma BacktrackedGranted(t: Trail, assumptions: seq<Literal>, level: nat)
    requires Ok(t) && Granted(t, assumptions) && level < |t.lim|
    ensures t.lim[level] <= |t.lits| && Granted(Backtracked(t, level), assumptions)
  {
    hide Pos, Ok;
    BacktrackedKeeps(t, level, FromIndex(0));
    forall i | 0 <= i < Least(level, |assumptions|)
      ensures IsTrue(Backtracked(t, level), assumptions[i]) &&
              Level(Backtracked(t, level), assumptions[i].variable) <= i + 1
    {
      BacktrackedKeeps(t, level, assumptions[i]);
    }
  }

  lemma EnqueuedGranted(t: Trail, assumptions: seq<Literal>, p: Literal, from: Reason)
    requires Granted(t, assumptions) && p.variable !in t.assigns
    ensures Granted(Enqueued(t, p, from), assumptions)
  {
  }

  /** An assumption that is true already gets a level of its own. */
  lemma DecidedGranted(t: Trail, assumptions: seq<Literal>)
    requires Ok(t) && Granted(t, assumptions) && |t.lim| < |assumptions| && IsTrue(t, assumptions[|t.lim|])
    ensures Granted(Decided(t), assumptions)
  {
    hide Pos, Ok;
    FalseLevel(t, assumptions[|t.lim|].Negated());
  }

  /** An open one is decided at its level; later decisions make no difference. */
  lemma BranchGranted(t: Trail, assumptions: seq<Literal>, p: Literal)
    requires Granted(t, assumptions) && p.variable !in t.assigns
    requires |t.lim| < |assumptions| ==> p == assumptions[|t.lim|]
    ensures Granted(Enqueued(Decided(t), p, NoReason), assumptions)
  {
    var u := Enqueued(Decided(t), p, NoReason);
    forall i | 0 <= i < Least(|u.lim|, |assumptions|)
      ensures IsTrue(u, assumptions[i]) && Level(u, assumptions[i].variable) <= i + 1
    {
      if i < |t.lim| {
        assert IsTrue(t, assumptions[i]);
      }
    }
  }

  /** The assumption at position `i` is false and all before it are true. */
  ghost predicate FailsAt(t: Trail, assumptions: seq<Literal>, i: nat) {
    i < |assumptions| && IsFalse(t, assumptions[i]) && forall k :: 0 <= k < i ==> IsTrue(t, assumptions[k])
  }

  ghost predicate HoldsAll(m: Model, c: Clause) { forall l :: l in c ==> Holds(m, l) }

  /** Variables set by decisions. */
  ghost function Decisions(t: Trail): set<nat> {
    set i | 0 <= i < |t.lits| && Level(t, t.lits[i].variable) > 0 &&
      ReasonOf(t, t.lits[i].variable).NoReason? :: t.lits[i].variable
  }

  /** The variables marked by the final analysis at positions from `n` on are decisions, which are
      kept, or follow from marked ones. */
  ghost predicate Explained(ca: Clauses, t: Trail, ever: set<nat>, kept: set<nat>, n: nat) {
    kept <= Decisions(t) &&
    (forall v :: v in ever ==> v in t.assigns && Level(t, v) > 0) &&
    (forall i {:trigger t.lits[i]} :: n <= i < |t.lits| && t.lits[i].variable in ever ==>
       t.lits[i].variable in kept || Follows(ca, t, ever, t.lits[i].variable))
  }

  lemma ExplainedSupports(ca: Clauses, t: Trail, ever: set<nat>, kept: set<nat>, n: nat)
    requires Ok(t) && Explained(ca, t, ever, kept, n) && t.lim != [] && n <= t.lim[0]
    ensures Supported(ca, t, ever, kept)
  {
    hide Pos, Follows;
    forall v | v in ever ensures v in t.assigns && (v in kept || Follows(ca, t, ever, v)) {
      var i := Locate(t, Literal(v, true));
      assert t.lim[0] <= i <==> 0 < Level(t, t.lits[i].variable);
    }
  }

  lemma ExplainedMore(ca: Clauses, t: Trail, ever: set<nat>, kept: set<nat>, n: nat, cr: nat)
    requires Ok(t) && Reasoned(ca, t) && Explained(ca, t, ever, kept, n + 1) && n < |t.lits|
    requires ReasonOf(t, t.lits[n].variable) == Because(cr)
    ensures cr in ca && Explained(ca, t, ever + High(t, ca[cr], 1, |ca[cr]|), kept, n)
    ensures forall k :: 1 <= k < |ca[cr]| ==> Pos(t.lits, ca[cr][k].variable) < n
  {
    hide Pos, Ok, Reasoned;
    ReasonOlder(ca, t, n, cr);
    var more := ever + High(t, ca[cr], 1, |ca[cr]|);
    forall v | v in more ensures v in t.assigns && Level(t, v) > 0 {
    }
    forall i | n <= i < |t.lits| && t.lits[i].variable in more ensures t.lits[i].variable in kept ||
      Follows(ca, t, more, t.lits[i].variable) {
      if i > n {
        if t.lits[i].variable !in ever {
          var k :| 1 <= k < |ca[cr]| && ca[cr][k].variable == t.lits[i].variable;
          PosOf(t, i);
        }
        assert Follows(ca, t, ever, t.lits[i].variable) ==> Follows(ca, t, more, t.lits[i].variable);
      }
    }
  }

  lemma PosOf(t: Trail, i: nat)
    requires Ok(t) && i < |t.lits|
    ensures Pos(t.lits, t.lits[i].variable) == i
  {
    PosAt(t.lits, i);
  }

  lemma ExplainedDecision(ca: Clauses, t: Trail, ever: set<nat>, kept: set<nat>, n: nat)
    requires Explained(ca, t, ever, kept, n + 1) && n < |t.lits| && t.lits[n].variable in ever
    requires ReasonOf(t, t.lits[n].variable).NoReason?
    ensures Explained(ca, t, ever, kept + {t.lits[n].variable}, n)
  {
  }

  lemma ExplainedSkip(ca: Clauses, t: Trail, ever: set<nat>, kept: set<nat>, n: nat)
    requires Explained(ca, t, ever, kept, n + 1) && n < |t.lits| && t.lits[n].variable !in ever
    ensures Explained(ca, t, ever, kept, n)
  {
  }

  /** The literal holds whenever the decisions kept do. */
  lemma FinalImplied(ca: Clauses, t: Trail, ever: set<nat>, c: Clause, m: Model)
    requires Ok(t) && Reasoned(ca, t) && c != [] && Supported(ca, t, ever, Lower(c)) && c[0].variable in ever
    requires IsTrue(t, c[0])
    requires (forall k :: 1 <= k < |c| ==> IsFalse(t, c[k])) && Fits(m, ca, t)
    ensures Satisfies(m, c)
  {
    hide Ok, Reasoned, Supported, Fits;
    if Holds(m, c[0]) {
      assert c[0] in c;
    } else {
      KeptDiffers(ca, t, ever, Lower(c), m, c[0].variable);
      var v :| v in Lower(c) && Differs(m, t, v);
      var k :| 1 <= k < |c| && c[k].variable == v;
      assert c[k] in c && Holds(m, c[k]);
    }
  }

  lemma DecisionsAssumed(t: Trail, assumptions: seq<Literal>, l: Literal)
    requires Ok(t) && Assumed(t, assumptions) && |t.lim| <= |assumptions| && IsFalse(t, l) && l.variable in Decisions(t)
    ensures l.Negated() in assumptions
  {
    hide Pos;
    var i := Locate(t, l);
  }

  lemma DecidedAssumed(t: Trail, assumptions: seq<Literal>)
    requires Assumed(t, assumptions)
    ensures Assumed(Decided(t), assumptions)
  {
  }

  lemma EnqueuedAssumed(t: Trail, assumptions: seq<Literal>, p: Literal, from: Reason)
    requires Ok(t) && Assumed(t, assumptions) && p.variable !in t.assigns
    requires from.Because? || |t.lim| == 0 || |t.lim| > |assumptions| || p in assumptions
    ensures Assumed(Enqueued(t, p, from), assumptions)
  {
    hide Pos;
    var u := Enqueued(t, p, from);
    forall i | 0 <= i < |u.lits| && 0 < Level(u, u.lits[i].variable) <= |assumptions| &&
      ReasonOf(u, u.lits[i].variable).NoReason?
      ensures u.lits[i] in assumptions
    {
      if i < |t.lits| {
        NotYet(t, p, i);
        assert u.lits[i] == t.lits[i];
      }
    }
  }

  lemma BacktrackedAssumed(t: Trail, assumptions: seq<Literal>, level: nat)
    requires Ok(t) && Assumed(t, assumptions) && level < |t.lim|
    ensures t.lim[level] <= |t.lits| && Assumed(Backtracked(t, level), assumptions)
  {
    BacktrackedOk(t, level);
    var u := Backtracked(t, level);
    assert forall i :: 0 <= i < |u.lits| ==> u.lits[i] == t.lits[i];
  }

  /** How many variables below `n` are free. */
  ghost function Free(t: Trail, n: nat): nat {
    if n == 0 then 0 else Free(t, n - 1) + if n - 1 in t.assigns then 0 else 1
  }

  lemma {:induction false} FreeGrown(t: Trail, u: Trail, n: nat)
    requires forall v :: v in t.assigns ==> v in u.assigns
    ensures Free(u, n) <= Free(t, n)
  {
    if n > 0 {
      FreeGrown(t, u, n - 1);
    }
  }

  lemma {:induction false} FreeEnqueued(t: Trail, n: nat, p: Literal, from: Reason)
    requires p.variable !in t.assigns && p.variable < n
    ensures Free(Enqueued(t, p, from), n) < Free(t, n)
  {
    if p.variable < n - 1 {
      FreeEnqueued(t, n - 1, p, from);
    } else {
      FreeGrown(t, Enqueued(t, p, from), n - 1);
    }
  }

  /** Marked and still to be visited: the explained variables before position `n`. */
  ghost predicate Unfinished(t: Trail, ever: set<nat>, s: set<nat>, p: Literal, n: nat) {
    forall v :: v in s <==> (v in ever && Pos(t.lits, v) < n) || (v == p.variable && Level(t, v) == 0)
  }

  lemma UnfinishedBegins(ca: Clauses, t: Trail, p: Literal)
    requires Ok(t) && IsTrue(t, p)
    ensures var ever: set<nat> := if Level(t, p.variable) == 0 then {} else {p.variable};
            Unfinished(t, ever, {p.variable}, p, |t.lits|) && Explained(ca, t, ever, Lower([p]), |t.lits|)
  {
    hide Pos;
    var _ := Locate(t, p);
  }

  lemma UnfinishedAt(t: Trail, ever: set<nat>, s: set<nat>, p: Literal, i: nat)
    requires Ok(t) && Unfinished(t, ever, s, p, i + 1) && i < |t.lits| && t.lim != [] && t.lim[0] <= i
    ensures Level(t, t.lits[i].variable) > 0
    ensures t.lits[i].variable in s <==> t.lits[i].variable in ever
    ensures t.lits[i].variable !in ever ==> Unfinished(t, ever, s, p, i)
  {
    hide Pos;
    PosAt(t.lits, i);
    assert t.lim[0] <= i <==> 0 < Level(t, t.lits[i].variable);
    forall v | v in ever && Pos(t.lits, v) < i + 1 ensures Pos(t.lits, v) < i || v == t.lits[i].variable {
    }
  }

  lemma UnfinishedNext(t: Trail, ever: set<nat>, s: set<nat>, p: Literal, i: nat, more: set<nat>)
    requires Ok(t) && Unfinished(t, ever, s, p, i + 1) && i < |t.lits| && t.lim != [] && t.lim[0] <= i
    requires forall v :: v in more ==> Pos(t.lits, v) < i
    ensures Unfinished(t, ever + more, s + more - {t.lits[i].variable}, p, i)
  {
    hide Pos;
    PosAt(t.lits, i);
    assert t.lim[0] <= i <==> 0 < Level(t, t.lits[i].variable);
    forall v | v in ever && Pos(t.lits, v) < i + 1 ensures Pos(t.lits, v) < i || v == t.lits[i].variable {
    }
  }

  lemma UnfinishedEnds(ca: Clauses, t: Trail, ever: set<nat>, kept: set<nat>, s: set<nat>, p: Literal)
    requires Ok(t) && t.lim != [] && Unfinished(t, ever, s, p, t.lim[0]) && Explained(ca, t, ever, kept, t.lim[0])
    ensures s - {p.variable} == {}
  {
    hide Pos, Follows;
    forall v | v in s ensures v == p.variable {
      if v in ever {
        LevelZeroBefore(t, v);
      }
    }
  }

  /** After the first literal: exactly the negated decisions that `p` is reached back to from. */
  ghost predicate Blames(ca: Clauses, t: Trail, p: Literal, c: Clause) {
    c != [] && c[0] == p && forall l :: l in c[1..] <==> IsFalse(t, l) && l.variable in Blamed(ca, t, p)
  }

  ghost function Blamed(ca: Clauses, t: Trail, p: Literal): set<nat> {
    set v | v in Decisions(t) && (v == p.variable || Reaches(ca, t, {}, p.variable, v))
  }

  /** Whatever was marked is reached from `p`. */
  ghost predicate Backward(ca: Clauses, t: Trail, ever: set<nat>, kept: set<nat>, p: Literal) {
    kept <= ever && forall v :: v in ever ==> v == p.variable || Reaches(ca, t, {}, p.variable, v)
  }

  lemma BackwardBegins(ca: Clauses, t: Trail, ever: set<nat>, p: Literal)
    requires ever <= {p.variable}
    ensures Backward(ca, t, ever, Lower([p]), p)
  {
  }

  lemma NobodyBlamed(ca: Clauses, t: Trail, p: Literal)
    requires Ok(t) && t.lim == []
    ensures Blames(ca, t, p, [p])
  {
    hide Pos, Reaches;
  }

  lemma BackwardDecision(ca: Clauses, t: Trail, ever: set<nat>, kept: set<nat>, p: Literal, v: nat)
    requires Backward(ca, t, ever, kept, p) && v in ever
    ensures Backward(ca, t, ever, kept + {v}, p)
  {
    hide Reaches;
  }

  lemma BackwardMore(ca: Clauses, t: Trail, ever: set<nat>, kept: set<nat>, p: Literal, v: nat, cr: nat)
    requires Backward(ca, t, ever, kept, p) && v in ever && ReasonOf(t, v) == Because(cr) && cr in ca
    ensures Backward(ca, t, ever + High(t, ca[cr], 1, |ca[cr]|), kept, p)
  {
    hide Reaches, High;
    forall w | w in High(t, ca[cr], 1, |ca[cr]|) ensures w == p.variable || Reaches(ca, t, {}, p.variable, w) {
      ReachesStep(ca, t, {}, p.variable, v, w);
    }
  }

  lemma FinalBlames(ca: Clauses, t: Trail, ever: set<nat>, p: Literal, c: Clause)
    requires Ok(t) && Reasoned(ca, t) && t.lim != [] && Final(t, c) && c[0] == p && IsTrue(t, p)
    requires Explained(ca, t, ever, Lower(c), t.lim[0]) && Backward(ca, t, ever, Lower(c), p)
    requires if Level(t, p.variable) > 0 then p.variable in ever else ever == {}
    ensures Blames(ca, t, p, c)
  {
    hide Pos, Ok, Reasoned, Reaches, Decisions;
    ExplainedSupports(ca, t, ever, Lower(c), t.lim[0]);
    forall v ensures v in Lower(c) <==> v in Blamed(ca, t, p) {
      if v in Blamed(ca, t, p) {
        BlamedKept(ca, t, ever, Lower(c), p, v);
      }
    }
    hide Explained, Backward, Blamed;
    forall l ensures l in c[1..] <==> IsFalse(t, l) && l.variable in Lower(c) {
      if IsFalse(t, l) && l.variable in Lower(c) {
        var k :| 1 <= k < |c| && c[k].variable == l.variable;
        assert c[k] == l && c[1..][k - 1] == l;
      }
      if l in c[1..] {
        var k :| 0 <= k < |c[1..]| && c[1..][k] == l;
        assert c[k + 1] == l;
      }
    }
  }

  lemma BlamedKept(ca: Clauses, t: Trail, ever: set<nat>, kept: set<nat>, p: Literal, v: nat)
    requires Ok(t) && Reasoned(ca, t) && Supported(ca, t, ever, kept) && v in Blamed(ca, t, p) && IsTrue(t, p)
    requires kept <= Decisions(t)
    requires if Level(t, p.variable) > 0 then p.variable in ever else ever == {}
    ensures v in kept
  {
    hide Pos, Ok, Reasoned, Follows;
    DecisionHasNone(t, v);
    if Level(t, p.variable) == 0 {
      if Reaches(ca, t, {}, p.variable, v) {
        var path :| Chain(ca, t, {}, path, p.variable, v);
        assert Needs(ca, t, path[0], path[1]);
        NothingNeeded(ca, t, p, path[1]);
      }
    } else {
      if v != p.variable {
        var path :| Chain(ca, t, {}, path, p.variable, v);
        forall x, y | (x == p.variable || x in ever) && Needs(ca, t, x, y) && y !in {} ensures y in ever {
          NeededMarked(ca, t, ever, kept, x, y);
        }
        ClosedHolds(ca, t, {}, ever, path, p.variable, v, |path| - 1);
      }
      NoReasonKept(ca, t, ever, kept, v);
    }
  }

  lemma DecisionHasNone(t: Trail, v: nat)
    requires v in Decisions(t)
    ensures ReasonOf(t, v).NoReason? && Level(t, v) > 0
  {
  }

  lemma NothingNeeded(ca: Clauses, t: Trail, p: Literal, w: nat)
    requires Ok(t) && Reasoned(ca, t) && IsTrue(t, p) && Level(t, p.variable) == 0
    ensures !Needs(ca, t, p.variable, w)
  {
    hide Pos, Ok, Reasoned;
    if ReasonOf(t, p.variable).Because? {
      var i := Locate(t, p);
      ReasonOlder(ca, t, i, ReasonOf(t, p.variable).cref);
    }
  }

  lemma NeededMarked(ca: Clauses, t: Trail, ever: set<nat>, kept: set<nat>, x: nat, y: nat)
    requires Supported(ca, t, ever, kept) && x in ever && Needs(ca, t, x, y)
    requires kept <= Decisions(t)
    ensures y in ever
  {
    if x in kept {
      DecisionHasNone(t, x);
    }
    assert Follows(ca, t, ever, x) || x in kept;
  }

  lemma NoReasonKept(ca: Clauses, t: Trail, ever: set<nat>, kept: set<nat>, v: nat)
    requires Supported(ca, t, ever, kept) && v in ever && ReasonOf(t, v).NoReason?
    ensures v in kept
  {
    assert v in kept || Follows(ca, t, ever, v);
  }

  lemma LevelZeroBefore(t: Trail, v: nat)
    requires Ok(t) && t.lim != [] && v in t.assigns
    ensures Pos(t.lits, v) < t.lim[0] <==> Level(t, v) == 0
  {
    hide Pos;
    var i := Locate(t, Literal(v, true));
    assert t.lim[0] <= i <==> 0 < Level(t, t.lits[i].variable);
  }

  /** Below the first literal: negated decisions. */
  ghost predicate Final(t: Trail, c: Clause) {
    c != [] && forall k :: 1 <= k < |c| ==> IsFalse(t, c[k]) && c[k].variable in Decisions(t)
  }

  lemma FinalDecision(t: Trail, c: Clause, i: nat)
    requires Ok(t) && Final(t, c) && i < |t.lits| && Level(t, t.lits[i].variable) > 0
    requires ReasonOf(t, t.lits[i].variable).NoReason?
    ensures var d := c + [t.lits[i].Negated()];
            Final(t, d) && Lower(d) == Lower(c) + {t.lits[i].variable}
  {
    hide Pos;
    var d := c + [t.lits[i].Negated()];
    assert IsTrue(t, t.lits[i]);
    assert t.lits[i].variable in Decisions(t);
    forall k | 1 <= k < |d| ensures IsFalse(t, d[k]) && d[k].variable in Decisions(t) {
      assert k < |c| ==> d[k] == c[k];
    }
    forall v ensures v in Lower(d) <==> v in Lower(c) + {t.lits[i].variable} {
      if v in Lower(c) {
        var k :| 1 <= k < |c| && c[k].variable == v;
        assert d[k].variable == v;
      }
      assert d[|c|].variable == t.lits[i].variable;
    }
  }

  lemma FinalIsImplied(ca: Clauses, t: Trail, ever: set<nat>, c: Clause)
    requires Ok(t) && Reasoned(ca, t) && t.lim != [] && Final(t, c) && IsTrue(t, c[0])
    requires Explained(ca, t, ever, Lower(c), t.lim[0]) && (Level(t, c[0].variable) > 0 ==> c[0].variable in ever)
    ensures Implied(ca, t, c)
  {
    hide Ok, Reasoned, Explained, Pos, Supported, Decisions;
    ExplainedSupports(ca, t, ever, Lower(c), t.lim[0]);
    forall m: Model | Fits(m, ca, t) ensures Satisfies(m, c) {
      if Level(t, c[0].variable) > 0 {
        FinalImplied(ca, t, ever, c, m);
      } else {
        LevelZeroTrue(ca, t, c[0], m);
      }
    }
  }

  lemma LevelZeroTrue(ca: Clauses, t: Trail, p: Literal, m: Model)
    requires Ok(t) && IsTrue(t, p) && Level(t, p.variable) == 0 && Fits(m, ca, t)
    ensures Holds(m, p)
  {
    hide Pos;
    var i := Locate(t, p);
  }

  lemma LevelZeroFinal(ca: Clauses, t: Trail, p: Literal)
    requires Ok(t) && IsTrue(t, p) && t.lim == []
    ensures Implied(ca, t, [p])
  {
    hide Pos, Ok, Fits;
    FalseLevel(t, p.Negated());
    forall m: Model | Fits(m, ca, t) ensures Satisfies(m, [p]) {
      LevelZeroTrue(ca, t, p, m);
      assert p in [p];
    }
  }

  lemma LimitFits(t: Trail)
    requires Ok(t) && t.lim != []
    ensures t.lim[0] <= |t.lits|
  {
  }

  /** The models afterwards are the models before that satisfy the added clause. */
  ghost predicate Adds(ca: Clauses, t: Trail, c: Clause, cb: Clauses, u: Trail) {
    forall m: Model :: Fits(m, cb, u) <==> Fits(m, ca, t) && Satisfies(m, c)
  }

  ghost predicate NoModel(ca: Clauses, t: Trail, c: Clause) {
    forall m: Model :: !(Fits(m, ca, t) && Satisfies(m, c))
  }

  /** The first `n` literals of the sorted clause have been reduced to `out`, of which the last is `p`. */
  ghost predicate Reduced(t: Trail, c: Clause, n: nat, out: Clause) {
    n <= |c| &&
    (forall k :: 0 <= k < |out| ==> out[k] in c && out[k].variable !in t.assigns) &&
    (forall k :: 0 <= k < n ==> IsFalse(t, c[k]) || c[k] in out) &&
    (forall i, j :: 0 <= i < j < |out| ==> out[i].Index() < out[j].Index() && out[i].variable != out[j].variable) &&
    (forall k, j :: 0 <= k < |out| && n <= j < |c| ==> out[k].Index() <= c[j].Index())
  }

  ghost predicate Sorted(c: Clause) {
    forall i, j :: 0 <= i < j < |c| ==> c[i].Index() <= c[j].Index()
  }

  lemma ReducedSkip(t: Trail, c: Clause, n: nat, out: Clause)
    requires Reduced(t, c, n, out) && n < |c| && (IsFalse(t, c[n]) || (out != [] && c[n] == out[|out| - 1]))
    ensures Reduced(t, c, n + 1, out)
  {
  }

  lemma ReducedKeep(t: Trail, c: Clause, n: nat, out: Clause)
    requires Reduced(t, c, n, out) && Sorted(c) && n < |c| && !IsFalse(t, c[n]) && !IsTrue(t, c[n])
    requires out != [] ==> c[n] != out[|out| - 1] && c[n] != out[|out| - 1].Negated()
    ensures Reduced(t, c, n + 1, out + [c[n]])
  {
    var more := out + [c[n]];
    forall k | 0 <= k < |out| ensures out[k].Index() < c[n].Index() && out[k].variable != c[n].variable {
      assert out[|out| - 1].Index() <= c[n].Index();
      IndexChain(out[k], out[|out| - 1], c[n]);
    }
    assert more[|out|] == c[n];
    hide Sorted;
    assert forall k :: 0 <= k < n + 1 ==> IsFalse(t, c[k]) || c[k] in more;
  }

  lemma IndexChain(a: Literal, p: Literal, b: Literal)
    requires a == p || (a.Index() < p.Index() && a.variable != p.variable)
    requires p.Index() <= b.Index() && b != p && b != p.Negated()
    ensures a.Index() < b.Index() && a.variable != b.variable
  {
    IndexGap(p, b);
    IndexGap(a, p);
    IndexGap(a, b);
  }

  lemma IndexGap(a: Literal, b: Literal)
    ensures a.Index() <= b.Index() && a != b && a != b.Negated() ==> a.variable < b.variable
    ensures a.Index() <= b.Index() ==> a.variable <= b.variable
    ensures a.variable < b.variable ==> a.Index() < b.Index()
  {
  }

  lemma FalseHere(ca: Clauses, t: Trail, m: Model, l: Literal)
    requires Ok(t) && t.lim == [] && Fits(m, ca, t)
    ensures IsFalse(t, l) ==> !Holds(m, l)
    ensures IsTrue(t, l) ==> Holds(m, l)
  {
    hide Pos;
    if IsTrue(t, l) || IsFalse(t, l) {
      var i := Locate(t, l);
      assert Level(t, t.lits[i].variable) == 0;
    }
  }

  /** At level 0 the reduced clause says the same. */
  lemma ReducedSatisfied(ca: Clauses, t: Trail, m: Model, c: Clause, out: Clause)
    requires Ok(t) && t.lim == [] && Reduced(t, c, |c|, out) && Fits(m, ca, t)
    ensures Satisfies(m, c) <==> Satisfies(m, out)
  {
    hide Ok, Fits;
    if Satisfies(m, c) {
      var l :| l in c && Holds(m, l);
      var k :| 0 <= k < |c| && c[k] == l;
      FalseHere(ca, t, m, l);
    }
    if Satisfies(m, out) {
      var l :| l in out && Holds(m, l);
      var k :| 0 <= k < |out| && out[k] == l;
    }
  }

  lemma AlreadySatisfied(ca: Clauses, t: Trail, c: Clause, i: nat, out: Clause)
    requires Ok(t) && t.lim == [] && i < |c|
    requires IsTrue(t, c[i]) || (out != [] && c[i] == out[|out| - 1].Negated() && out[|out| - 1] in c)
    ensures Adds(ca, t, c, ca, t)
  {
    hide Ok, Fits;
    forall m: Model | Fits(m, ca, t) ensures Satisfies(m, c) {
      FalseHere(ca, t, m, c[i]);
      if Holds(m, c[i]) {
        assert c[i] in c;
      } else {
        assert Holds(m, out[|out| - 1]);
      }
    }
  }

  /** Nothing left of the clause. */
  lemma EmptyAdded(ca: Clauses, t: Trail, c: Clause)
    requires Ok(t) && t.lim == [] && Reduced(t, c, |c|, [])
    ensures NoModel(ca, t, c)
  {
    hide Ok, Fits, Reduced;
    forall m: Model ensures !(Fits(m, ca, t) && Satisfies(m, c)) {
      if Fits(m, ca, t) {
        ReducedSatisfied(ca, t, m, c, []);
      }
    }
  }
}
