/** Two watched literals with blockers. */
module Watching {
  // The shape of the watcher lists and what they promise.

  import opened Logic
  import opened Trails

  datatype Watcher = Watcher(cref: nat, blocker: Literal)

  type WatchLists = map<Literal, seq<Watcher>>

  /** The watchers to visit when `p` becomes true. */
  function ListOf(ws: WatchLists, p: Literal): seq<Watcher> { if p in ws then ws[p] else [] }

  /** At least two literals, over different variables. */
  ghost predicate Proper(c: Clause) {
    2 <= |c| && Clean(c)
  }

  ghost predicate AllProper(ca: Clauses) {
    forall cr :: cr in ca ==> Proper(ca[cr])
  }

  predicate Watches(c: Clause, l: Literal) { |c| >= 2 && (c[0] == l || c[1] == l) }

  /** The other watched literal. */
  function Other(c: Clause, l: Literal): Literal
    requires |c| >= 2
  {
    if c[0] == l then c[1] else c[0]
  }

  predicate Entry(ca: Clauses, p: Literal, w: Watcher) {
    w.cref in ca && Watches(ca[w.cref], p.Negated()) && w.blocker in ca[w.cref] && w.blocker != p.Negated()
  }

  predicate Lists(l: seq<Watcher>, cr: nat) { exists i :: 0 <= i < |l| && l[i].cref == cr }

  ghost predicate Once(l: seq<Watcher>) {
    forall i, j :: 0 <= i < j < |l| ==> l[i].cref != l[j].cref
  }

  ghost predicate Entries(ca: Clauses, p: Literal, l: seq<Watcher>) {
    forall i :: 0 <= i < |l| ==> Entry(ca, p, l[i])
  }

  /** Every clause is in exactly the lists of the negations of its first two literals, once. */
  ghost predicate Shaped(ca: Clauses, ws: WatchLists) {
    AllProper(ca) &&
    (forall p {:trigger ListOf(ws, p)} :: Entries(ca, p, ListOf(ws, p)) && Once(ListOf(ws, p))) &&
    (forall cr, p {:trigger Watches(ca[cr], p), ListOf(ws, p.Negated())}
                   {:trigger Lists(ListOf(ws, p.Negated()), cr)} ::
       cr in ca && Watches(ca[cr], p) ==> Lists(ListOf(ws, p.Negated()), cr))
  }

  ghost predicate TrueBy(t: Trail, l: Literal, level: nat) {
    IsTrue(t, l) && Level(t, l.variable) <= level
  }

  /** The clause is satisfied at the level of `p` by the blocker or by the other watched literal. */
  ghost predicate Justified(ca: Clauses, t: Trail, p: Literal, w: Watcher)
    requires Entry(ca, p, w)
  {
    TrueBy(t, w.blocker, Level(t, p.variable)) || TrueBy(t, Other(ca[w.cref], p.Negated()), Level(t, p.variable))
  }

  /** `p` was propagated: it is on the trail before position `q`. */
  ghost predicate Propagated(t: Trail, p: Literal, q: nat) {
    IsTrue(t, p) && Pos(t.lits, p.variable) < q
  }

  /** The watchers of every propagated literal are justified, and the first `n` ones of `p`. */
  ghost predicate Settled(ca: Clauses, ws: WatchLists, t: Trail, q: nat, p: Literal, n: nat)
    requires Shaped(ca, ws)
  {
    forall l, i {:trigger Settles(ca, ws, t, l, i)} ::
      0 <= i < |ListOf(ws, l)| && (Propagated(t, l, q) || (l == p && i < n)) ==>
      Settles(ca, ws, t, l, i)
  }

  ghost predicate Settles(ca: Clauses, ws: WatchLists, t: Trail, l: Literal, i: nat)
    requires Shaped(ca, ws) && i < |ListOf(ws, l)|
  {
    Justified(ca, t, l, ListOf(ws, l)[i])
  }

  /** The same with no list under way. */
  ghost predicate Stable(ca: Clauses, ws: WatchLists, t: Trail, q: nat)
    requires Shaped(ca, ws)
  {
    forall l, i {:trigger Settles(ca, ws, t, l, i)} :: 0 <= i < |ListOf(ws, l)| && Propagated(t, l, q) ==>
      Settles(ca, ws, t, l, i)
  }

  /** A fully propagated state without conflict: every clause has a true literal or two literals
      that are not false. */
  lemma NothingUnit(ca: Clauses, ws: WatchLists, t: Trail, cr: nat)
    requires Shaped(ca, ws) && Ok(t) && Stable(ca, ws, t, |t.lits|) && cr in ca
    ensures (exists l :: l in ca[cr] && IsTrue(t, l)) || (!IsFalse(t, ca[cr][0]) && !IsFalse(t, ca[cr][1]))
  {
    hide Pos, Ok;
    var c := ca[cr];
    assert Proper(c);
    if IsFalse(t, c[0]) {
      FalseWatchSatisfied(ca, ws, t, cr, c[0]);
    } else if IsFalse(t, c[1]) {
      FalseWatchSatisfied(ca, ws, t, cr, c[1]);
    }
  }

  lemma FalseWatchSatisfied(ca: Clauses, ws: WatchLists, t: Trail, cr: nat, l: Literal)
    requires Shaped(ca, ws) && Ok(t) && Stable(ca, ws, t, |t.lits|) && cr in ca && Watches(ca[cr], l) && IsFalse(t, l)
    ensures exists k :: k in ca[cr] && IsTrue(t, k)
  {
    hide Pos, Ok;
    var list := ListOf(ws, l.Negated());
    assert Lists(list, cr);
    var i :| 0 <= i < |list| && list[i].cref == cr;
    FalseIsBefore(t, l);
    assert Propagated(t, l.Negated(), |t.lits|);
    assert Settles(ca, ws, t, l.Negated(), i);
    assert Entry(ca, l.Negated(), list[i]);
  }

  lemma JustifiedAfterEnqueue(ca: Clauses, t: Trail, p: Literal, from: Reason, l: Literal, w: Watcher)
    requires Ok(t) && p.variable !in t.assigns && Entry(ca, l, w) && IsTrue(t, l) && Justified(ca, t, l, w)
    ensures Justified(ca, Enqueued(t, p, from), l, w)
  {
  }

  lemma EnqueuedSettled(ca: Clauses, ws: WatchLists, t: Trail, q: nat, p: Literal, n: nat, lit: Literal, from: Reason)
    requires Ok(t) && lit.variable !in t.assigns && Shaped(ca, ws) && q <= |t.lits| && IsTrue(t, p)
    requires Settled(ca, ws, t, q, p, n)
    ensures Settled(ca, ws, Enqueued(t, lit, from), q, p, n)
  {
    hide Pos, Ok, Shaped, Justified;
    var u := Enqueued(t, lit, from);
    forall l, i | 0 <= i < |ListOf(ws, l)| &&
      (Propagated(u, l, q) || (l == p && i < n)) ensures Settles(ca, ws, u, l, i) {
      PosAppend(t.lits, lit, l.variable);
      StillPropagated(t, lit, from, l, q);
      assert Settles(ca, ws, t, l, i);
      EntryAt(ca, ws, l, i);
      JustifiedAfterEnqueue(ca, t, lit, from, l, ListOf(ws, l)[i]);
    }
  }

  lemma EntryAt(ca: Clauses, ws: WatchLists, l: Literal, i: nat)
    requires Shaped(ca, ws) && i < |ListOf(ws, l)|
    ensures Entry(ca, l, ListOf(ws, l)[i]) && Proper(ca[ListOf(ws, l)[i].cref])
  {
  }

  lemma StillPropagated(t: Trail, lit: Literal, from: Reason, l: Literal, q: nat)
    requires Ok(t) && lit.variable !in t.assigns && q <= |t.lits|
    ensures Propagated(Enqueued(t, lit, from), l, q) <==> Propagated(t, l, q)
  {
    hide Pos;
    PosAppend(t.lits, lit, l.variable);
    if Propagated(t, l, q) {
      var _ := Locate(t, l);
    }
    if Propagated(Enqueued(t, lit, from), l, q) {
      assert IsTrue(t, t.lits[Pos(t.lits, l.variable)]);
    }
  }

  lemma BacktrackedStable(ca: Clauses, ws: WatchLists, t: Trail, level: nat, q: nat)
    requires Ok(t) && level < |t.lim| && Shaped(ca, ws) && t.lim[level] <= q && Stable(ca, ws, t, q)
    ensures t.lim[level] <= |t.lits| && Stable(ca, ws, Backtracked(t, level), t.lim[level])
  {
    hide Pos, Ok, Shaped, Backtracked;
    BacktrackedKeeps(t, level, FromIndex(0));
    var u := Backtracked(t, level);
    forall l, i | 0 <= i < |ListOf(ws, l)| && Propagated(u, l, t.lim[level]) ensures Settles(ca, ws, u, l, i) {
      BacktrackedKeeps(t, level, l);
      assert Settles(ca, ws, t, l, i);
      EntryAt(ca, ws, l, i);
      var w := ListOf(ws, l)[i];
      BacktrackedKeeps(t, level, w.blocker);
      BacktrackedKeeps(t, level, Other(ca[w.cref], l.Negated()));
      SameLevels(t, level);
    }
  }

  lemma SameLevels(t: Trail, level: nat)
    requires level < |t.lim| && t.lim[level] <= |t.lits|
    ensures Backtracked(t, level).vardata == t.vardata
  {
  }

  /** Two literals of a clause exchanged. */
  function Swap(c: Clause, i: nat, j: nat): (r: Clause)
    requires i < |c| && j < |c|
    ensures |r| == |c| && multiset(r) == multiset(c) && forall l :: l in r <==> l in c
  {
    SwapKeepsLiterals(c, i, j);
    c[i := c[j]][j := c[i]]
  }

  lemma SwapKeepsLiterals(c: Clause, i: nat, j: nat)
    requires i < |c| && j < |c|
    ensures var r := c[i := c[j]][j := c[i]];
            multiset(r) == multiset(c) && forall l :: l in r <==> l in c
  {
    var r := c[i := c[j]][j := c[i]];
    forall l ensures l in r <==> l in c {
      assert l in r <==> l in multiset(r);
      assert l in c <==> l in multiset(c);
    }
  }

  lemma SwapProper(c: Clause, i: nat, j: nat)
    requires Proper(c) && i < |c| && j < |c|
    ensures Proper(Swap(c, i, j))
  {
    var r := Swap(c, i, j);
    forall a, b | 0 <= a < b < |r| ensures r[a].variable != r[b].variable {
      var x := if a == i then j else if a == j then i else a;
      var y := if b == i then j else if b == j then i else b;
      assert r[a] == c[x] && r[b] == c[y] && x != y;
      assert if x < y then c[x].variable != c[y].variable else c[y].variable != c[x].variable;
    }
  }

  /** A clause whose first literal is not true is nobody's reason. */
  lemma ChangedReasoned(ca: Clauses, t: Trail, cr: nat, c: Clause)
    requires Ok(t) && Reasoned(ca, t) && cr in ca && ca[cr] != [] && !IsTrue(t, ca[cr][0])
    ensures Reasoned(ca[cr := c], t)
  {
    hide Pos;
    var cb := ca[cr := c];
    forall i | 0 <= i < |t.lits| ensures ReasonAt(cb, t, i) {
      assert ReasonAt(ca, t, i) && IsTrue(t, t.lits[i]);
    }
  }

  lemma SwappedShaped(ca: Clauses, ws: WatchLists, cr: nat)
    requires Shaped(ca, ws) && cr in ca
    ensures |ca[cr]| >= 2 && Shaped(ca[cr := Swap(ca[cr], 0, 1)], ws)
  {
    hide Swap;
    assert Proper(ca[cr]);
    SwapProper(ca[cr], 0, 1);
    SwappedWatches(ca[cr]);
    var cb := ca[cr := Swap(ca[cr], 0, 1)];
    forall p ensures Entries(cb, p, ListOf(ws, p)) {
      forall i | 0 <= i < |ListOf(ws, p)| ensures Entry(cb, p, ListOf(ws, p)[i]) {
        assert Entry(ca, p, ListOf(ws, p)[i]);
      }
    }
    forall cr', p | cr' in cb && Watches(cb[cr'], p) ensures Lists(ListOf(ws, p.Negated()), cr') {
      assert Watches(ca[cr'], p);
    }
  }

  lemma SwappedWatches(c: Clause)
    requires Proper(c)
    ensures forall l :: Watches(Swap(c, 0, 1), l) <==> Watches(c, l)
    ensures forall l :: Watches(c, l) ==> Other(Swap(c, 0, 1), l) == Other(c, l)
    ensures Swap(c, 0, 1)[0] == c[1] && Swap(c, 0, 1)[1] == c[0]
  {
  }

  lemma SwappedSettled(ca: Clauses, ws: WatchLists, t: Trail, q: nat, p: Literal, n: nat, cr: nat)
    requires Shaped(ca, ws) && cr in ca && Settled(ca, ws, t, q, p, n)
    ensures |ca[cr]| >= 2 && Shaped(ca[cr := Swap(ca[cr], 0, 1)], ws)
    ensures Settled(ca[cr := Swap(ca[cr], 0, 1)], ws, t, q, p, n)
  {
    SwappedShaped(ca, ws, cr);
    var cb := ca[cr := Swap(ca[cr], 0, 1)];
    SwappedWatches(ca[cr]);
    hide Pos, Shaped, Swap, Other, TrueBy;
    forall l, i | 0 <= i < |ListOf(ws, l)| &&
      (Propagated(t, l, q) || (l == p && i < n)) ensures Settles(cb, ws, t, l, i) {
      assert Settles(ca, ws, t, l, i);
      EntryAt(ca, ws, l, i);
      assert Other(cb[ListOf(ws, l)[i].cref], l.Negated()) == Other(ca[ListOf(ws, l)[i].cref], l.Negated());
    }
  }

  /** The watcher at `j` gets another blocker. */
  lemma BlockerShaped(ca: Clauses, ws: WatchLists, p: Literal, j: nat, w: Watcher)
    requires Shaped(ca, ws) && j < |ListOf(ws, p)| && w.cref == ListOf(ws, p)[j].cref && Entry(ca, p, w)
    ensures Shaped(ca, ws[p := ListOf(ws, p)[j := w]])
  {
    var list := ListOf(ws, p);
    var vs := ws[p := list[j := w]];
    assert Entries(ca, p, list) && Once(list);
    forall l ensures Entries(ca, l, ListOf(vs, l)) && Once(ListOf(vs, l)) {
      assert l != p ==> ListOf(vs, l) == ListOf(ws, l);
    }
    forall cr, l | cr in ca && Watches(ca[cr], l) ensures Lists(ListOf(vs, l.Negated()), cr) {
      assert Lists(ListOf(ws, l.Negated()), cr);
      if l.Negated() == p {
        var i :| 0 <= i < |list| && list[i].cref == cr;
        assert list[j := w][i].cref == cr;
      }
    }
  }

  lemma BlockerSettled(ca: Clauses, ws: WatchLists, t: Trail, q: nat, p: Literal, j: nat, w: Watcher)
    requires Shaped(ca, ws) && j < |ListOf(ws, p)| && w.cref == ListOf(ws, p)[j].cref && Entry(ca, p, w)
    requires Settled(ca, ws, t, q, p, j) && Justified(ca, t, p, w)
    ensures Shaped(ca, ws[p := ListOf(ws, p)[j := w]]) && Settled(ca, ws[p := ListOf(ws, p)[j := w]], t, q, p, j + 1)
  {
    BlockerShaped(ca, ws, p, j, w);
    hide Pos, Shaped, Justified;
    var vs := ws[p := ListOf(ws, p)[j := w]];
    forall l, i | 0 <= i < |ListOf(vs, l)| &&
      (Propagated(t, l, q) || (l == p && i < j + 1)) ensures Settles(ca, vs, t, l, i) {
      if l != p || i != j {
        assert ListOf(vs, l)[i] == ListOf(ws, l)[i];
        assert Settles(ca, ws, t, l, i);
      }
    }
  }

  /** The clause at `j` stops watching `p` and watches its `k`-th literal instead. */
  function Moved(ca: Clauses, ws: WatchLists, p: Literal, j: nat, k: nat): WatchLists
    requires j < |ListOf(ws, p)| && ListOf(ws, p)[j].cref in ca && 2 <= k < |ca[ListOf(ws, p)[j].cref]|
  {
    var list, c := ListOf(ws, p), ca[ListOf(ws, p)[j].cref];
    var vs := ws[p := list[..j] + list[j + 1..]];
    vs[c[k].Negated() := ListOf(vs, c[k].Negated()) + [Watcher(list[j].cref, c[0])]]
  }

  ghost predicate CanMove(ca: Clauses, ws: WatchLists, p: Literal, j: nat, k: nat) {
    j < |ListOf(ws, p)| && ListOf(ws, p)[j].cref in ca &&
    var c := ca[ListOf(ws, p)[j].cref];
    2 <= k < |c| && c[1] == p.Negated()
  }

  lemma MovedLists(ca: Clauses, ws: WatchLists, p: Literal, j: nat, k: nat)
    requires Shaped(ca, ws) && CanMove(ca, ws, p, j, k)
    ensures var list, c := ListOf(ws, p), ca[ListOf(ws, p)[j].cref];
            var vs, to := Moved(ca, ws, p, j, k), c[k].Negated();
            to != p && to != c[0].Negated() && ListOf(vs, p) == list[..j] + list[j + 1..] &&
            ListOf(vs, to) == ListOf(ws, to) + [Watcher(list[j].cref, c[0])] &&
            (forall i :: 0 <= i < |ListOf(ws, to)| ==> ListOf(ws, to)[i].cref != list[j].cref) &&
            (forall l :: l != p && l != to ==> ListOf(vs, l) == ListOf(ws, l))
  {
    var list := ListOf(ws, p);
    var cr := list[j].cref;
    var c := ca[cr];
    assert Proper(c);
    assert c[1].variable != c[k].variable && c[0].variable != c[k].variable;
    var to := c[k].Negated();
    forall i | 0 <= i < |ListOf(ws, to)| ensures ListOf(ws, to)[i].cref != cr {
      assert Entry(ca, to, ListOf(ws, to)[i]);
    }
  }

  lemma MovedWatches(c: Clause, k: nat)
    requires Proper(c) && 2 <= k < |c|
    ensures var d := Swap(c, 1, k);
            Proper(d) && d[0] == c[0] && d[1] == c[k] && c[0] != c[1] && c[0] != c[k] && c[1] != c[k] &&
            (forall l :: Watches(d, l) <==> l == c[0] || l == c[k])
  {
    SwapProper(c, 1, k);
  }

  lemma MovedEntries(ca: Clauses, ws: WatchLists, p: Literal, j: nat, k: nat, l: Literal)
    requires Shaped(ca, ws) && CanMove(ca, ws, p, j, k)
    ensures var cr := ListOf(ws, p)[j].cref;
            var cb, vs := ca[cr := Swap(ca[cr], 1, k)], Moved(ca, ws, p, j, k);
            Entries(cb, l, ListOf(vs, l)) && Once(ListOf(vs, l))
  {
    MovedLists(ca, ws, p, j, k);
    var list := ListOf(ws, p);
    var cr := list[j].cref;
    var c := ca[cr];
    assert Proper(c);
    MovedWatches(c, k);
    hide Moved, Swap, Proper;
    assert Entries(ca, l, ListOf(ws, l)) && Once(ListOf(ws, l));
    var cb, vs := ca[cr := Swap(c, 1, k)], Moved(ca, ws, p, j, k);
    forall i | 0 <= i < |ListOf(vs, l)| ensures Entry(cb, l, ListOf(vs, l)[i]) {
      if l == p {
        var x := if i < j then i else i + 1;
        assert ListOf(vs, l)[i] == list[x] && Entry(ca, l, list[x]);
        assert list[x].cref != cr;
      } else if i < |ListOf(ws, l)| {
        assert ListOf(vs, l)[i] == ListOf(ws, l)[i];
        assert Entry(ca, l, ListOf(ws, l)[i]);
      }
    }
  }

  lemma MovedShaped(ca: Clauses, ws: WatchLists, p: Literal, j: nat, k: nat)
    requires Shaped(ca, ws) && CanMove(ca, ws, p, j, k)
    ensures var cr := ListOf(ws, p)[j].cref;
            Shaped(ca[cr := Swap(ca[cr], 1, k)], Moved(ca, ws, p, j, k))
  {
    var cr := ListOf(ws, p)[j].cref;
    var c := ca[cr];
    assert Proper(c);
    MovedWatches(c, k);
    var cb, vs := ca[cr := Swap(c, 1, k)], Moved(ca, ws, p, j, k);
    hide Moved, Swap, Proper, Entries, Once, Lists, Watches;
    forall l ensures Entries(cb, l, ListOf(vs, l)) && Once(ListOf(vs, l)) {
      MovedEntries(ca, ws, p, j, k, l);
    }
    forall x, l | x in cb && Watches(cb[x], l) ensures Lists(ListOf(vs, l.Negated()), x) {
      MovedListed(ca, ws, p, j, k, x, l);
    }
  }

  lemma DroppedLists(list: seq<Watcher>, j: nat, x: nat)
    requires j < |list| && Lists(list, x) && x != list[j].cref
    ensures Lists(list[..j] + list[j + 1..], x)
  {
    var i :| 0 <= i < |list| && list[i].cref == x;
    var now := list[..j] + list[j + 1..];
    assert now[if i < j then i else i - 1] == list[i];
  }

  lemma ExtendedLists(list: seq<Watcher>, w: Watcher, x: nat)
    requires Lists(list, x) || x == w.cref
    ensures Lists(list + [w], x)
  {
    var now := list + [w];
    if x == w.cref {
      assert now[|list|] == w;
    } else {
      var i :| 0 <= i < |list| && list[i].cref == x;
      assert now[i] == list[i];
    }
  }

  lemma ShapedLists(ca: Clauses, ws: WatchLists, x: nat, l: Literal)
    requires Shaped(ca, ws) && x in ca && Watches(ca[x], l)
    ensures Lists(ListOf(ws, l.Negated()), x)
  {
    hide Watches, Lists, AllProper, Entries, Once;
  }

  lemma MovedListed(ca: Clauses, ws: WatchLists, p: Literal, j: nat, k: nat, x: nat, l: Literal)
    requires Shaped(ca, ws) && CanMove(ca, ws, p, j, k) && x in ca
    requires var cr := ListOf(ws, p)[j].cref;
             Watches(if x == cr then Swap(ca[cr], 1, k) else ca[x], l)
    ensures Lists(ListOf(Moved(ca, ws, p, j, k), l.Negated()), x)
  {
    MovedLists(ca, ws, p, j, k);
    var list := ListOf(ws, p);
    var cr := list[j].cref;
    var c := ca[cr];
    assert Proper(c);
    MovedWatches(c, k);
    hide Moved, Swap, Proper, Shaped, Lists, Once, Entries, AllProper;
    var to := c[k].Negated();
    if x == cr && l == c[k] {
      ExtendedLists(ListOf(ws, to), Watcher(cr, c[0]), x);
    } else {
      ShapedLists(ca, ws, x, l);
      if l.Negated() == p {
        DroppedLists(list, j, x);
      } else if l.Negated() == to {
        ExtendedLists(ListOf(ws, to), Watcher(cr, c[0]), x);
      }
    }
  }

  lemma MovedSettled(ca: Clauses, ws: WatchLists, t: Trail, q: nat, p: Literal, j: nat, k: nat)
    requires Shaped(ca, ws) && CanMove(ca, ws, p, j, k) && Settled(ca, ws, t, q, p, j)
    requires IsTrue(t, p) && !Propagated(t, p, q) && !IsFalse(t, ca[ListOf(ws, p)[j].cref][k])
    ensures var cr := ListOf(ws, p)[j].cref;
            var cb, vs := ca[cr := Swap(ca[cr], 1, k)], Moved(ca, ws, p, j, k);
            Shaped(cb, vs) && Settled(cb, vs, t, q, p, j)
  {
    MovedShaped(ca, ws, p, j, k);
    MovedLists(ca, ws, p, j, k);
    var list := ListOf(ws, p);
    var cr := list[j].cref;
    var c := ca[cr];
    assert Proper(c);
    MovedWatches(c, k);
    var cb, vs := ca[cr := Swap(c, 1, k)], Moved(ca, ws, p, j, k);
    assert Once(list);
    hide Moved, Swap, Proper, Shaped, Pos;
    forall l, i | 0 <= i < |ListOf(vs, l)| &&
      (Propagated(t, l, q) || (l == p && i < j)) ensures Settles(cb, vs, t, l, i) {
      var w := ListOf(vs, l)[i];
      EntryAt(cb, vs, l, i);
      assert i < |ListOf(ws, l)| && ListOf(ws, l)[i] == w;
      assert Settles(ca, ws, t, l, i);
      EntryAt(ca, ws, l, i);
    }
  }

  /** A new clause put on the lists of its first two literals. */
  function Attached(ws: WatchLists, cr: nat, c: Clause): WatchLists
    requires |c| >= 2
  {
    var vs := ws[c[0].Negated() := ListOf(ws, c[0].Negated()) + [Watcher(cr, c[1])]];
    vs[c[1].Negated() := ListOf(vs, c[1].Negated()) + [Watcher(cr, c[0])]]
  }

  lemma AttachedLists(ws: WatchLists, cr: nat, c: Clause, l: Literal)
    requires Proper(c)
    ensures ListOf(Attached(ws, cr, c), l) ==
              ListOf(ws, l) + if l == c[0].Negated() then [Watcher(cr, c[1])]
                              else if l == c[1].Negated() then [Watcher(cr, c[0])] else []
  {
    assert c[0].variable != c[1].variable;
    assert ListOf(ws, l) + [] == ListOf(ws, l);
  }

  lemma AttachedEntries(ca: Clauses, ws: WatchLists, cr: nat, c: Clause, l: Literal)
    requires Shaped(ca, ws) && cr !in ca && Proper(c)
    ensures Entries(ca[cr := c], l, ListOf(Attached(ws, cr, c), l)) && Once(ListOf(Attached(ws, cr, c), l))
  {
    ProperPair(c);
    AttachedLists(ws, cr, c, l);
    hide Attached, Proper;
    var before, now := ListOf(ws, l), ListOf(Attached(ws, cr, c), l);
    assert Entries(ca, l, before) && Once(before);
    forall i | 0 <= i < |before| ensures Entry(ca[cr := c], l, now[i]) && now[i].cref != cr {
      assert Entry(ca, l, before[i]);
    }
  }

  lemma AttachedListed(ca: Clauses, ws: WatchLists, cr: nat, c: Clause, x: nat, l: Literal)
    requires Shaped(ca, ws) && cr !in ca && Proper(c) && (x == cr || x in ca)
    requires Watches(if x == cr then c else ca[x], l)
    ensures Lists(ListOf(Attached(ws, cr, c), l.Negated()), x)
  {
    AttachedLists(ws, cr, c, l.Negated());
    hide Attached, Proper;
    var before, now := ListOf(ws, l.Negated()), ListOf(Attached(ws, cr, c), l.Negated());
    if x == cr {
      assert now[|before|].cref == cr;
    } else {
      assert Lists(before, x);
      var i :| 0 <= i < |before| && before[i].cref == x;
      assert now[i].cref == x;
    }
  }

  lemma AttachedShaped(ca: Clauses, ws: WatchLists, cr: nat, c: Clause)
    requires Shaped(ca, ws) && cr !in ca && Proper(c)
    ensures Shaped(ca[cr := c], Attached(ws, cr, c))
  {
    hide Attached, Entries, Once, Lists, Watches;
    var cb, vs := ca[cr := c], Attached(ws, cr, c);
    forall l ensures Entries(cb, l, ListOf(vs, l)) && Once(ListOf(vs, l)) {
      AttachedEntries(ca, ws, cr, c, l);
    }
    forall x, l | x in cb && Watches(cb[x], l) ensures Lists(ListOf(vs, l.Negated()), x) {
      AttachedListed(ca, ws, cr, c, x, l);
    }
  }

  lemma ProperPair(c: Clause)
    requires Proper(c)
    ensures c[0].variable != c[1].variable
  {
  }

  /** A propagated falsification of one watched literal is excused by the other. */
  ghost predicate Excused(t: Trail, a: Literal, b: Literal, q: nat) {
    Propagated(t, a.Negated(), q) ==> TrueBy(t, b, Level(t, a.variable))
  }

  lemma AttachedStable(ca: Clauses, ws: WatchLists, t: Trail, q: nat, cr: nat, c: Clause)
    requires Shaped(ca, ws) && cr !in ca && Proper(c) && Stable(ca, ws, t, q)
    requires Excused(t, c[0], c[1], q) && Excused(t, c[1], c[0], q)
    ensures Shaped(ca[cr := c], Attached(ws, cr, c)) && Stable(ca[cr := c], Attached(ws, cr, c), t, q)
  {
    AttachedShaped(ca, ws, cr, c);
    ProperPair(c);
    hide Attached, Proper, Shaped, Pos;
    var cb, vs := ca[cr := c], Attached(ws, cr, c);
    forall l, i | 0 <= i < |ListOf(vs, l)| && Propagated(t, l, q) ensures Settles(cb, vs, t, l, i) {
      AttachedLists(ws, cr, c, l);
      EntryAt(cb, vs, l, i);
      if i < |ListOf(ws, l)| {
        assert Settles(ca, ws, t, l, i);
        EntryAt(ca, ws, l, i);
      }
    }
  }

  /** A clause may be attached to a propagated state exactly if each propagated false watch is
      excused by the other. */
  lemma AttachedStableExactly(ca: Clauses, ws: WatchLists, t: Trail, q: nat, cr: nat, c: Clause)
    requires Shaped(ca, ws) && cr !in ca && Proper(c) && Stable(ca, ws, t, q)
    ensures Shaped(ca[cr := c], Attached(ws, cr, c))
    ensures Stable(ca[cr := c], Attached(ws, cr, c), t, q) <==> Excused(t, c[0], c[1], q) && Excused(t, c[1], c[0], q)
  {
    AttachedShaped(ca, ws, cr, c);
    if Excused(t, c[0], c[1], q) && Excused(t, c[1], c[0], q) {
      AttachedStable(ca, ws, t, q, cr, c);
    }
    if Stable(ca[cr := c], Attached(ws, cr, c), t, q) {
      StableExcuses(ca, ws, t, q, cr, c, 0);
      StableExcuses(ca, ws, t, q, cr, c, 1);
    }
  }

  lemma StableExcuses(ca: Clauses, ws: WatchLists, t: Trail, q: nat, cr: nat, c: Clause, slot: nat)
    requires Proper(c) && slot < 2 && Shaped(ca[cr := c], Attached(ws, cr, c))
    requires Stable(ca[cr := c], Attached(ws, cr, c), t, q)
    ensures Excused(t, c[slot], c[1 - slot], q)
  {
    ProperPair(c);
    hide Attached, Proper, Shaped, Pos;
    var cb, vs := ca[cr := c], Attached(ws, cr, c);
    var l := c[slot].Negated();
    AttachedLists(ws, cr, c, l);
    var i := |ListOf(ws, l)|;
    assert ListOf(vs, l)[i] == Watcher(cr, c[1 - slot]);
    EntryAt(cb, vs, l, i);
    if Propagated(t, l, q) {
      assert Settles(cb, vs, t, l, i);
    }
  }

  lemma EnqueuedStable(ca: Clauses, ws: WatchLists, t: Trail, q: nat, lit: Literal, from: Reason)
    requires Ok(t) && lit.variable !in t.assigns && Shaped(ca, ws) && q <= |t.lits| && Stable(ca, ws, t, q)
    ensures Stable(ca, ws, Enqueued(t, lit, from), q)
  {
    hide Pos, Ok, Shaped, Justified;
    var u := Enqueued(t, lit, from);
    forall l, i | 0 <= i < |ListOf(ws, l)| && Propagated(u, l, q) ensures Settles(ca, ws, u, l, i) {
      StillPropagated(t, lit, from, l, q);
      assert Settles(ca, ws, t, l, i);
      EntryAt(ca, ws, l, i);
      JustifiedAfterEnqueue(ca, t, lit, from, l, ListOf(ws, l)[i]);
    }
  }
}
