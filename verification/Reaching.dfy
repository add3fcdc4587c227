/** Chains of reasons. */
module Reaching {
  // What a variable depends on, without saying in which order it is explored.

  import opened Logic
  import opened Trails
  import opened Analysis

  /** `w`, above level 0, is needed by the reason of `v`. */
  ghost predicate Needs(ca: Clauses, t: Trail, v: nat, w: nat) {
    var r := ReasonOf(t, v);
    r.Because? && r.cref in ca && w in High(t, ca[r.cref], 1, |ca[r.cref]|)
  }

  /** A chain of needs that starts at `v` and then avoids `s`. */
  ghost predicate Chain(ca: Clauses, t: Trail, s: set<nat>, path: seq<nat>, v: nat, w: nat) {
    |path| > 1 && path[0] == v && path[|path| - 1] == w &&
    forall i {:trigger path[i]} :: 1 <= i < |path| ==> Needs(ca, t, path[i - 1], path[i]) && path[i] !in s
  }

  ghost predicate Reaches(ca: Clauses, t: Trail, s: set<nat>, v: nat, w: nat) {
    exists path :: Chain(ca, t, s, path, v, w)
  }

  lemma ReachesNext(ca: Clauses, t: Trail, s: set<nat>, v: nat, w: nat)
    requires Needs(ca, t, v, w) && w !in s
    ensures Reaches(ca, t, s, v, w)
  {
    hide Needs;
    assert Chain(ca, t, s, [v, w], v, w);
  }

  lemma ReachesOn(ca: Clauses, t: Trail, s: set<nat>, v: nat, w: nat, x: nat)
    requires Reaches(ca, t, s, v, w) && Reaches(ca, t, s, w, x)
    ensures Reaches(ca, t, s, v, x)
  {
    hide Needs;
    var a, b :| Chain(ca, t, s, a, v, w) && Chain(ca, t, s, b, w, x);
    var path := a + b[1..];
    forall i | 1 <= i < |path| ensures Needs(ca, t, path[i - 1], path[i]) && path[i] !in s {
      if i >= |a| {
        var k := i - |a| + 1;
        assert path[i] == b[k];
        assert i == |a| ==> path[i - 1] == a[|a| - 1] == b[0];
        assert i > |a| ==> path[i - 1] == b[k - 1];
      }
    }
    assert path[|path| - 1] == x;
    assert Chain(ca, t, s, path, v, x);
  }

  lemma ReachesStep(ca: Clauses, t: Trail, s: set<nat>, v: nat, w: nat, x: nat)
    requires (v == w || Reaches(ca, t, s, v, w)) && Needs(ca, t, w, x) && x !in s
    ensures Reaches(ca, t, s, v, x)
  {
    hide Needs, Reaches;
    ReachesNext(ca, t, s, w, x);
    if v != w {
      ReachesOn(ca, t, s, v, w, x);
    }
  }

  lemma ReachesAvoidingLess(ca: Clauses, t: Trail, s: set<nat>, m: set<nat>, v: nat, w: nat)
    requires Reaches(ca, t, m, v, w) && s <= m
    ensures Reaches(ca, t, s, v, w)
  {
    hide Needs;
    var path :| Chain(ca, t, m, path, v, w);
    assert Chain(ca, t, s, path, v, w);
  }

  /** A set that is closed under needs outside `s` holds everything reached. */
  lemma {:induction false} ClosedHolds(ca: Clauses, t: Trail, s: set<nat>, m: set<nat>, path: seq<nat>, v: nat, w: nat,
                                       i: nat)
    requires Chain(ca, t, s, path, v, w) && 1 <= i < |path|
    requires forall x, y {:trigger Needs(ca, t, x, y)} :: (x == v || x in m) && Needs(ca, t, x, y) && y !in s ==> y in m
    ensures path[i] in m
  {
    hide Needs;
    assert Needs(ca, t, path[i - 1], path[i]);
    if i > 1 {
      ClosedHolds(ca, t, s, m, path, v, w, i - 1);
    }
  }

  // ---------------------------------------------------------------- what can be removed

  /** The decision levels are only told apart by their last five bits. */
  function AbstractLevel(t: Trail, v: nat): set<nat> { {Level(t, v) % 32} }

  /** The residues of the levels that occur. */
  function Residues(t: Trail, s: set<nat>): set<nat> { set v | v in s :: Level(t, v) % 32 }

  /** A variable the exploration may go through. */
  ghost predicate Passable(t: Trail, levels: set<nat>, v: nat) {
    ReasonOf(t, v).Because? && AbstractLevel(t, v) * levels != {}
  }

  /** Everything `v` depends on, up to `s` and level 0, has a reason and a level among the residues. */
  ghost predicate Removable(ca: Clauses, t: Trail, s: set<nat>, levels: set<nat>, v: nat) {
    ReasonOf(t, v).Because? && forall w :: Reaches(ca, t, s, v, w) ==> Passable(t, levels, w)
  }

  /** The marks of earlier successes: they hide nothing. */
  ghost predicate Harmless(ca: Clauses, t: Trail, s: set<nat>, m: set<nat>, levels: set<nat>) {
    s <= m && forall w :: w in m - s ==> Passable(t, levels, w) && Removable(ca, t, s, levels, w)
  }

  lemma HarmlessBegins(ca: Clauses, t: Trail, s: set<nat>, levels: set<nat>)
    ensures Harmless(ca, t, s, s, levels)
  {
  }

  /** With them the answer is the same as without. */
  lemma MarksDoNotMatter(ca: Clauses, t: Trail, s: set<nat>, m: set<nat>, levels: set<nat>, v: nat)
    requires Harmless(ca, t, s, m, levels)
    ensures Removable(ca, t, m, levels, v) <==> Removable(ca, t, s, levels, v)
  {
    hide Needs, Passable;
    if Removable(ca, t, s, levels, v) {
      forall w | Reaches(ca, t, m, v, w) ensures Passable(t, levels, w) {
        ReachesAvoidingLess(ca, t, s, m, v, w);
      }
    }
    if Removable(ca, t, m, levels, v) {
      forall w | Reaches(ca, t, s, v, w) ensures Passable(t, levels, w) {
        var path :| Chain(ca, t, s, path, v, w);
        if i :| 1 <= i < |path| && path[i] in m {
          ThroughMark(ca, t, s, m, levels, path, v, w, i);
        } else {
          assert Chain(ca, t, m, path, v, w);
          assert Reaches(ca, t, m, v, w);
        }
      }
    }
  }

  lemma ThroughMark(ca: Clauses, t: Trail, s: set<nat>, m: set<nat>, levels: set<nat>, path: seq<nat>, v: nat, w: nat,
                    i: nat)
    requires Harmless(ca, t, s, m, levels) && Chain(ca, t, s, path, v, w) && 1 <= i < |path| && path[i] in m
    ensures Passable(t, levels, w)
  {
    hide Needs, Passable;
    assert path[i] !in s;
    assert path[i] in m - s;
    if i < |path| - 1 {
      var tail := path[i..];
      forall k | 1 <= k < |tail| ensures Needs(ca, t, tail[k - 1], tail[k]) && tail[k] !in s {
        assert tail[k] == path[i + k] && tail[k - 1] == path[i + k - 1];
      }
      assert Chain(ca, t, s, tail, path[i], w);
      assert Reaches(ca, t, s, path[i], w);
    }
  }

  /** What a success adds to the marks is harmless too. */
  lemma StillHarmless(ca: Clauses, t: Trail, s: set<nat>, m: set<nat>, more: set<nat>, levels: set<nat>, v: nat)
    requires Harmless(ca, t, s, m, levels) && m <= more && Removable(ca, t, m, levels, v)
    requires forall w :: w in more - m ==> Reaches(ca, t, m, v, w)
    ensures Harmless(ca, t, s, more, levels)
  {
    hide Reaches, Passable;
    MarksDoNotMatter(ca, t, s, m, levels, v);
    forall w | w in more - s ensures Passable(t, levels, w) && Removable(ca, t, s, levels, w) {
      if w !in m {
        ReachesAvoidingLess(ca, t, s, m, v, w);
        PassableReason(t, levels, w);
        forall x | Reaches(ca, t, s, w, x) ensures Passable(t, levels, x) {
          ReachesOn(ca, t, s, v, w, x);
        }
      }
    }
  }

  lemma PassableReason(t: Trail, levels: set<nat>, w: nat)
    requires Passable(t, levels, w)
    ensures ReasonOf(t, w).Because?
  {
  }

  // ---------------------------------------------------------------- exploring

  /** While the reasons behind `v` are explored: what became seen is reached and passable, and the stack
      holds nothing else. */
  ghost predicate Reached(ca: Clauses, t: Trail, before: set<nat>, s: set<nat>, levels: set<nat>, v: nat,
                          stack: seq<Literal>) {
    before <= s &&
    (forall w :: w in s - before ==> Reaches(ca, t, before, v, w) && Passable(t, levels, w)) &&
    forall l :: l in stack ==> l.variable == v || l.variable in s - before
  }

  lemma ReachedBegins(ca: Clauses, t: Trail, s: set<nat>, levels: set<nat>, p: Literal)
    ensures Reached(ca, t, s, s, levels, p.variable, [p])
  {
  }

  lemma NeedsAt(ca: Clauses, t: Trail, v: nat, i: nat)
    requires ReasonOf(t, v).Because? && ReasonOf(t, v).cref in ca && 1 <= i < |ca[ReasonOf(t, v).cref]|
    requires Level(t, ca[ReasonOf(t, v).cref][i].variable) > 0
    ensures Needs(ca, t, v, ca[ReasonOf(t, v).cref][i].variable)
  {
  }

  lemma ReachedPush(ca: Clauses, t: Trail, before: set<nat>, s: set<nat>, levels: set<nat>, v: nat,
                    stack: seq<Literal>, q: Literal, l: Literal)
    requires Reached(ca, t, before, s, levels, v, [q] + stack) && l.variable !in s
    requires Needs(ca, t, q.variable, l.variable) && Passable(t, levels, l.variable)
    ensures Reached(ca, t, before, s + {l.variable}, levels, v, [q] + (stack + [l]))
  {
    hide Reaches, Passable, Needs;
    assert q in [q] + stack;
    ReachesStep(ca, t, before, v, q.variable, l.variable);
    forall x | x in [q] + (stack + [l]) ensures x.variable == v || x.variable in s + {l.variable} - before {
      assert x in [q] + stack || x == l;
    }
  }

  lemma ReachedLess(ca: Clauses, t: Trail, before: set<nat>, s: set<nat>, levels: set<nat>, v: nat,
                    stack: seq<Literal>, fewer: seq<Literal>)
    requires Reached(ca, t, before, s, levels, v, stack) && forall l :: l in fewer ==> l in stack
    ensures Reached(ca, t, before, s, levels, v, fewer)
  {
    hide Reaches, Passable;
  }

  /** A literal that cannot be passed was met. */
  lemma NotRemovable(ca: Clauses, t: Trail, before: set<nat>, s: set<nat>, levels: set<nat>, v: nat,
                     stack: seq<Literal>, q: Literal, w: nat)
    requires Reached(ca, t, before, s, levels, v, [q] + stack) && w !in s
    requires Needs(ca, t, q.variable, w) && !Passable(t, levels, w)
    ensures !Removable(ca, t, before, levels, v)
  {
    hide Reaches, Passable, Needs;
    assert q in [q] + stack;
    ReachesStep(ca, t, before, v, q.variable, w);
  }

  /** The stack is empty: everything reached was passed. */
  lemma AllPassed(ca: Clauses, t: Trail, before: set<nat>, s: set<nat>, levels: set<nat>, v: nat)
    requires Reached(ca, t, before, s, levels, v, []) && ReasonOf(t, v).Because?
    requires forall x :: x == v || x in s - before ==> Follows(ca, t, s, x)
    ensures Removable(ca, t, before, levels, v)
    ensures forall w :: w in s <==> w in before || Reaches(ca, t, before, v, w)
  {
    forall x, y | (x == v || x in s - before) && Needs(ca, t, x, y) && y !in before ensures y in s - before {
      assert Follows(ca, t, s, x);
    }
    forall w | Reaches(ca, t, before, v, w) ensures w in s - before {
      var path :| Chain(ca, t, before, path, v, w);
      ClosedHolds(ca, t, before, s - before, path, v, w, |path| - 1);
    }
  }
}
