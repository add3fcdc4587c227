/** The steps of unit propagation on one literal and what they keep. */
module Propagation {
  import opened Logic
  import opened Trails
  import opened Watching

  /** While the watchers of `p`, at position `q` of the trail, are visited: the first `n` ones are done. */
  ghost predicate Busy(ca: Clauses, ws: WatchLists, t: Trail, q: nat, p: Literal, n: nat) {
    Ok(t) && Reasoned(ca, t) && Shaped(ca, ws) && Settled(ca, ws, t, q, p, n) &&
    Start(t) <= q < |t.lits| && t.lits[q] == p
  }

  /** Between propagations: everything before position `q` is propagated. */
  ghost predicate Steady(ca: Clauses, ws: WatchLists, t: Trail, q: nat) {
    Ok(t) && Reasoned(ca, t) && Shaped(ca, ws) && Stable(ca, ws, t, q) && Start(t) <= q <= |t.lits|
  }

  lemma BusyBegins(ca: Clauses, ws: WatchLists, t: Trail, q: nat)
    requires Steady(ca, ws, t, q) && q < |t.lits|
    ensures Busy(ca, ws, t, q, t.lits[q], 0)
  {
    hide Pos, Ok, Shaped;
  }

  lemma BusyEnds(ca: Clauses, ws: WatchLists, t: Trail, q: nat, p: Literal)
    requires Busy(ca, ws, t, q, p, |ListOf(ws, p)|)
    ensures Steady(ca, ws, t, q + 1)
  {
    hide Pos, Ok, Shaped;
    forall l, i | 0 <= i < |ListOf(ws, l)| && Propagated(t, l, q + 1) ensures Settles(ca, ws, t, l, i) {
      var k := LocateIn(t, l);
      assert k == q ==> l == p;
    }
  }

  lemma LocateIn(t: Trail, l: Literal) returns (i: nat)
    requires Ok(t) && IsTrue(t, l)
    ensures i == Pos(t.lits, l.variable) && i < |t.lits| && t.lits[i] == l
  {
    i := Locate(t, l);
  }

  /** The propagated literal is at the current level, so whatever is true is true at its level. */
  lemma BusyLevel(ca: Clauses, ws: WatchLists, t: Trail, q: nat, p: Literal, n: nat, l: Literal)
    requires Busy(ca, ws, t, q, p, n)
    ensures IsTrue(t, p) && Pos(t.lits, p.variable) == q && Level(t, p.variable) == |t.lim|
    ensures IsTrue(t, l) ==> TrueBy(t, l, Level(t, p.variable))
  {
    hide Pos, Shaped, Settled, Reasoned;
    PosAt(t.lits, q);
    CurrentLevel(t, q);
    if IsTrue(t, l) {
      var i := Locate(t, l);
      LevelsGrow(t, i, if i < q then q else i);
    }
  }

  lemma BusyOk(ca: Clauses, ws: WatchLists, t: Trail, q: nat, p: Literal, n: nat)
    requires Busy(ca, ws, t, q, p, n)
    ensures Ok(t)
  {
  }

  lemma BusyEntry(ca: Clauses, ws: WatchLists, t: Trail, q: nat, p: Literal, n: nat, j: nat)
    requires Busy(ca, ws, t, q, p, n) && j < |ListOf(ws, p)|
    ensures Entry(ca, p, ListOf(ws, p)[j]) && Proper(ca[ListOf(ws, p)[j].cref])
  {
    hide Pos, Ok, Settled;
    EntryAt(ca, ws, p, j);
  }

  lemma BusySkip(ca: Clauses, ws: WatchLists, t: Trail, q: nat, p: Literal, j: nat)
    requires Busy(ca, ws, t, q, p, j) && j < |ListOf(ws, p)| && IsTrue(t, ListOf(ws, p)[j].blocker)
    ensures Busy(ca, ws, t, q, p, j + 1)
  {
    hide Pos, Ok, Shaped;
    BusyLevel(ca, ws, t, q, p, j, ListOf(ws, p)[j].blocker);
    EntryAt(ca, ws, p, j);
    assert Settles(ca, ws, t, p, j);
  }

  lemma BusySwap(ca: Clauses, ws: WatchLists, t: Trail, q: nat, p: Literal, n: nat, cr: nat)
    requires Busy(ca, ws, t, q, p, n) && cr in ca && ca[cr] != [] && ca[cr][0] == p.Negated()
    ensures |ca[cr]| >= 2 && Busy(ca[cr := Swap(ca[cr], 0, 1)], ws, t, q, p, n)
  {
    hide Pos, Ok, Shaped, Settled, Reasoned;
    BusyLevel(ca, ws, t, q, p, n, p);
    SwappedSettled(ca, ws, t, q, p, n, cr);
    ChangedReasoned(ca, t, cr, Swap(ca[cr], 0, 1));
  }

  /** What the visit of the watcher at `j` has found: its clause, with the false literal in slot 1. */
  ghost predicate Visits(ca: Clauses, ws: WatchLists, p: Literal, j: nat, cr: nat) {
    j < |ListOf(ws, p)| && ListOf(ws, p)[j].cref == cr && cr in ca && |ca[cr]| >= 2 && ca[cr][1] == p.Negated()
  }

  lemma BusyVisit(ca: Clauses, ws: WatchLists, t: Trail, q: nat, p: Literal, j: nat, cr: nat)
    requires Busy(ca, ws, t, q, p, j) && Visits(ca, ws, p, j, cr)
    ensures Proper(ca[cr]) && Entry(ca, p, Watcher(cr, ca[cr][0])) && IsFalse(t, ca[cr][1])
    ensures Level(t, ca[cr][1].variable) == |t.lim|
    ensures ca[cr][0].variable != p.variable
  {
    hide Pos, Ok, Settled, Reasoned;
    BusyLevel(ca, ws, t, q, p, j, p);
    EntryAt(ca, ws, p, j);
  }

  lemma BusyTrue(ca: Clauses, ws: WatchLists, t: Trail, q: nat, p: Literal, j: nat, cr: nat)
    requires Busy(ca, ws, t, q, p, j) && Visits(ca, ws, p, j, cr) && IsTrue(t, ca[cr][0])
    ensures Busy(ca, ws[p := ListOf(ws, p)[j := Watcher(cr, ca[cr][0])]], t, q, p, j + 1)
  {
    BusyVisit(ca, ws, t, q, p, j, cr);
    BusyLevel(ca, ws, t, q, p, j, ca[cr][0]);
    hide Pos, Ok, Shaped, Settled, Reasoned;
    BlockerSettled(ca, ws, t, q, p, j, Watcher(cr, ca[cr][0]));
  }

  lemma BusyMove(ca: Clauses, ws: WatchLists, t: Trail, q: nat, p: Literal, j: nat, cr: nat, k: nat)
    requires Busy(ca, ws, t, q, p, j) && Visits(ca, ws, p, j, cr) && !IsTrue(t, ca[cr][0])
    requires 2 <= k < |ca[cr]| && !IsFalse(t, ca[cr][k])
    ensures Busy(ca[cr := Swap(ca[cr], 1, k)], Moved(ca, ws, p, j, k), t, q, p, j)
  {
    hide Pos, Ok, Shaped, Settled, Reasoned, Moved;
    BusyLevel(ca, ws, t, q, p, j, p);
    MovedSettled(ca, ws, t, q, p, j, k);
    ChangedReasoned(ca, t, cr, Swap(ca[cr], 1, k));
  }

  lemma BusyUnit(ca: Clauses, ws: WatchLists, t: Trail, q: nat, p: Literal, j: nat, cr: nat)
    requires Busy(ca, ws, t, q, p, j) && Visits(ca, ws, p, j, cr)
    requires !IsTrue(t, ca[cr][0]) && !IsFalse(t, ca[cr][0])
    requires forall k :: 2 <= k < |ca[cr]| ==> IsFalse(t, ca[cr][k])
    ensures Busy(ca, ws[p := ListOf(ws, p)[j := Watcher(cr, ca[cr][0])]], Enqueued(t, ca[cr][0], Because(cr)),
                 q, p, j + 1)
  {
    var first := ca[cr][0];
    BusyVisit(ca, ws, t, q, p, j, cr);
    BusyLevel(ca, ws, t, q, p, j, p);
    var u := Enqueued(t, first, Because(cr));
    EnqueuedOk(t, first, Because(cr));
    EnqueuedReasoned(ca, t, first, Because(cr));
    hide Pos, Ok, Shaped, Settled, Reasoned;
    EnqueuedSettled(ca, ws, t, q, p, j, first, Because(cr));
    BlockerSettled(ca, ws, u, q, p, j, Watcher(cr, first));
  }

  lemma BusyConflict(ca: Clauses, ws: WatchLists, t: Trail, q: nat, p: Literal, j: nat, cr: nat)
    requires Busy(ca, ws, t, q, p, j) && Visits(ca, ws, p, j, cr)
    ensures Steady(ca, ws[p := ListOf(ws, p)[j := Watcher(cr, ca[cr][0])]], t, Start(t))
  {
    BusyVisit(ca, ws, t, q, p, j, cr);
    BlockerShaped(ca, ws, p, j, Watcher(cr, ca[cr][0]));
    BusyLevel(ca, ws, t, q, p, j, p);
    hide Ok, Shaped;
    var vs := ws[p := ListOf(ws, p)[j := Watcher(cr, ca[cr][0])]];
    forall l, i | 0 <= i < |ListOf(vs, l)| && Propagated(t, l, Start(t)) ensures Settles(ca, vs, t, l, i) {
      assert l != p;
      assert ListOf(vs, l) == ListOf(ws, l);
      assert Settles(ca, ws, t, l, i);
    }
  }

  /** The clauses are the same up to the order of their literals. */
  ghost predicate SameClauses(ca: Clauses, cb: Clauses) {
    ca.Keys == cb.Keys && forall cr :: cr in ca ==> multiset(ca[cr]) == multiset(cb[cr])
  }

  lemma SameModels(ca: Clauses, cb: Clauses, m: Model)
    requires SameClauses(ca, cb)
    ensures ModelsAll(m, ca) <==> ModelsAll(m, cb)
  {
    forall cr | cr in ca ensures Satisfies(m, ca[cr]) <==> Satisfies(m, cb[cr]) {
      forall l ensures l in ca[cr] <==> l in cb[cr] {
        assert l in multiset(ca[cr]) <==> l in multiset(cb[cr]);
      }
    }
  }

  lemma SameTrans(ca: Clauses, cb: Clauses, cc: Clauses)
    requires SameClauses(ca, cb) && SameClauses(cb, cc)
    ensures SameClauses(ca, cc)
  {
  }

  lemma SameSwapped(ca: Clauses, cb: Clauses, cr: nat, i: nat, j: nat)
    requires SameClauses(ca, cb) && cr in cb && i < |cb[cr]| && j < |cb[cr]|
    ensures SameClauses(ca, cb[cr := Swap(cb[cr], i, j)])
  {
    hide Swap;
  }

  lemma DecidedSteady(ca: Clauses, ws: WatchLists, t: Trail)
    requires Steady(ca, ws, t, |t.lits|)
    ensures Steady(ca, ws, Decided(t), |t.lits|)
  {
    hide Pos, Shaped;
    DecidedOk(t);
    var u := Decided(t);
    forall i | 0 <= i < |u.lits| ensures ReasonAt(ca, u, i) {
      assert ReasonAt(ca, t, i);
      var r := ReasonOf(t, t.lits[i].variable);
      if r.Because? {
        forall k | 1 <= k < |ca[r.cref]| ensures FalseBefore(u, ca[r.cref][k], i) {
          assert FalseBefore(t, ca[r.cref][k], i);
        }
      }
    }
    forall l, i | 0 <= i < |ListOf(ws, l)| && Propagated(u, l, |u.lits|) ensures Settles(ca, ws, u, l, i) {
      assert Settles(ca, ws, t, l, i);
      EntryAt(ca, ws, l, i);
    }
  }

  lemma BacktrackedSteady(ca: Clauses, ws: WatchLists, t: Trail, q: nat, level: nat)
    requires Steady(ca, ws, t, q) && level < |t.lim|
    ensures t.lim[level] <= |t.lits| && Steady(ca, ws, Backtracked(t, level), t.lim[level])
  {
    BacktrackedOk(t, level);
    BacktrackedReasoned(ca, t, level);
    BacktrackedStable(ca, ws, t, level, q);
  }

  /** The watcher lists with the visited list in two parts: kept entries and entries still to visit. */
  function View(ws: WatchLists, p: Literal, list: seq<Watcher>, i: nat, j: nat): WatchLists
    requires j <= i <= |list|
  {
    ws[p := list[..j] + list[i..]]
  }

  lemma ViewBegins(ws: WatchLists, p: Literal)
    ensures forall l :: ListOf(View(ws, p, ListOf(ws, p), 0, 0), l) == ListOf(ws, l)
  {
  }

  lemma ViewEnds(ws: WatchLists, p: Literal, list: seq<Watcher>, j: nat)
    requires j <= |list|
    ensures View(ws, p, list, |list|, j) == ws[p := list[..j]] && ListOf(ws[p := list[..j]], p) == list[..j]
  {
    assert list[..j] + list[|list|..] == list[..j];
  }

  lemma ViewAt(ws: WatchLists, p: Literal, list: seq<Watcher>, i: nat, j: nat, w: Watcher)
    requires j <= i < |list|
    ensures var view := View(ws, p, list, i, j);
            j < |ListOf(view, p)| && ListOf(view, p)[j] == list[i] &&
            View(ws, p, list[j := w], i + 1, j + 1) == view[p := ListOf(view, p)[j := w]] &&
            view[p := ListOf(view, p)[j := list[i]]] == view
  {
    var view := View(ws, p, list, i, j);
    assert list[j := w][..j + 1] + list[j := w][i + 1..] == ListOf(view, p)[j := w];
    assert ListOf(view, p)[j := list[i]] == ListOf(view, p);
  }

  lemma ViewMoved(ca: Clauses, ws: WatchLists, p: Literal, list: seq<Watcher>, i: nat, j: nat, k: nat)
    requires j <= i < |list| && list[i].cref in ca && 2 <= k < |ca[list[i].cref]|
    requires ca[list[i].cref][k].Negated() != p
    ensures var c := ca[list[i].cref];
            var to := c[k].Negated();
            var view := View(ws, p, list, i, j);
            j < |ListOf(view, p)| && ListOf(view, p)[j] == list[i] &&
            View(ws[to := ListOf(ws, to) + [Watcher(list[i].cref, c[0])]], p, list, i + 1, j) ==
              Moved(ca, view, p, j, k)
  {
    var view := View(ws, p, list, i, j);
    var l := ListOf(view, p);
    assert l[..j] + l[j + 1..] == list[..j] + list[i + 1..];
  }

  lemma EnqueuedSteady(ca: Clauses, ws: WatchLists, t: Trail, q: nat, p: Literal)
    requires Steady(ca, ws, t, q) && p.variable !in t.assigns
    ensures Steady(ca, ws, Enqueued(t, p, NoReason), q)
  {
    EnqueuedOk(t, p, NoReason);
    EnqueuedReasoned(ca, t, p, NoReason);
    EnqueuedStable(ca, ws, t, q, p, NoReason);
  }

  lemma MoreReasoned(ca: Clauses, t: Trail, cr: nat, c: Clause)
    requires Reasoned(ca, t) && cr !in ca
    ensures Reasoned(ca[cr := c], t)
  {
    hide Pos;
    forall i {:trigger t.lits[i]} | 0 <= i < |t.lits| ensures ReasonAt(ca[cr := c], t, i) {
      assert ReasonAt(ca, t, i);
    }
  }

  /** A clause none of whose watched literals is false. */
  lemma AddedSteady(ca: Clauses, ws: WatchLists, t: Trail, q: nat, cr: nat, c: Clause)
    requires Steady(ca, ws, t, q) && cr !in ca && Proper(c) && !IsFalse(t, c[0]) && !IsFalse(t, c[1])
    ensures Steady(ca[cr := c], Attached(ws, cr, c), t, q)
  {
    MoreReasoned(ca, t, cr, c);
    AttachedStable(ca, ws, t, q, cr, c);
  }

  /** A learnt clause: all false but its first literal, which it forces, the second one at the
      current level. */
  lemma LearntSteady(ca: Clauses, ws: WatchLists, t: Trail, q: nat, cr: nat, c: Clause)
    requires Steady(ca, ws, t, q) && cr !in ca && Proper(c) && c[0].variable !in t.assigns
    requires (forall k :: 1 <= k < |c| ==> IsFalse(t, c[k])) && Level(t, c[1].variable) == |t.lim|
    ensures Steady(ca[cr := c], Attached(ws, cr, c), Enqueued(t, c[0], Because(cr)), q)
  {
    var u := Enqueued(t, c[0], Because(cr));
    EnqueuedOk(t, c[0], Because(cr));
    MoreReasoned(ca, t, cr, c);
    EnqueuedReasoned(ca[cr := c], t, c[0], Because(cr));
    EnqueuedStable(ca, ws, t, q, c[0], Because(cr));
    ProperPair(c);
    hide Pos, Ok, Shaped, Reasoned, Attached;
    AttachedStable(ca, ws, u, q, cr, c);
  }
}
