/** The simplifier. */
module Simplifiers {
  // Subsumption, strengthening and variable elimination at decision level 0.

  import opened Logic
  import opened Resolution
  import opened Subsumption
  import opened Elimination
  import opened EliminationRuns

  type Clauses = map<nat, Clause>

  type Occurrences = map<nat, seq<nat>>

  function OccList(occurs: Occurrences, v: nat): seq<nat> { if v in occurs then occurs[v] else [] }

  ghost predicate WellStored(ca: Clauses, next: nat) {
    forall cr :: cr in ca ==> cr < next && Clean(ca[cr]) && |ca[cr]| >= 2
  }

  /** A list holds every clause with its variable, once, and perhaps removed ones. */
  ghost predicate Listed(ca: Clauses, occurs: Occurrences, next: nat, v: nat) {
    NoRepeats(OccList(occurs, v)) &&
    (forall cr :: cr in OccList(occurs, v) ==> cr < next && (cr in ca ==> Mentions(ca[cr], v))) &&
    (forall cr :: cr in ca && Mentions(ca[cr], v) ==> cr in OccList(occurs, v))
  }

  ghost predicate AllListed(ca: Clauses, occurs: Occurrences, next: nat) {
    forall v: nat {:trigger OccList(occurs, v)} :: Listed(ca, occurs, next, v)
  }

  ghost predicate Has(ca: Clauses, cr: nat, l: Literal) { cr in ca && l in ca[cr] }

  /** The clauses with the variable. */
  ghost function Occurring(ca: Clauses, v: nat): set<nat> { set cr | cr in ca && Mentions(ca[cr], v) }

  /** The pairs of clauses, one with the variable and one with its negation, that have a resolvent. */
  ghost function Pairs(ca: Clauses, v: nat): set<(nat, nat)> {
    set p, n | p in ca && n in ca && Resolvable(ca, v, p, n) :: (p, n)
  }

  ghost predicate Resolvable(ca: Clauses, v: nat, p: nat, n: nat) {
    Has(ca, p, Literal(v, true)) && Has(ca, n, Literal(v, false)) && !Clash(ca[p], ca[n], v)
  }

  /** Eliminating would give more resolvents than `grow` over the clauses it removes, or one that is too long. */
  ghost predicate Costly(ca: Clauses, v: nat, grow: int, clauseLim: int) {
    (Pairs(ca, v) != {} && |Pairs(ca, v)| > |Occurring(ca, v)| + grow) ||
    (clauseLim != -1 && exists p, n :: (p, n) in Pairs(ca, v) && |Joined(ca[p], ca[n], v)| > clauseLim)
  }

  /** A model of the clauses and the literals assigned at level 0. */
  ghost predicate Suits(m: Model, ca: Clauses, units: seq<Literal>) {
    (forall cr :: cr in ca ==> Satisfies(m, ca[cr])) && forall l :: l in units ==> Holds(m, l)
  }

  ghost predicate SameSuits(ca: Clauses, us: seq<Literal>, cb: Clauses, vs: seq<Literal>) {
    forall m: Model :: Suits(m, ca, us) <==> Suits(m, cb, vs)
  }

  ghost predicate Unsuitable(ca: Clauses, us: seq<Literal>) { forall m: Model :: !Suits(m, ca, us) }

  /** The models with one clause more. */
  ghost predicate AddsSuits(ca: Clauses, us: seq<Literal>, c: Clause, cb: Clauses, vs: seq<Literal>) {
    forall m: Model :: Suits(m, cb, vs) <==> Suits(m, ca, us) && Satisfies(m, c)
  }

  lemma RemovedListed(ca: Clauses, occurs: Occurrences, next: nat, cr: nat)
    requires WellStored(ca, next) && AllListed(ca, occurs, next)
    ensures WellStored(ca - {cr}, next) && AllListed(ca - {cr}, occurs, next)
  {
    forall v: nat ensures Listed(ca - {cr}, occurs, next, v) {
      assert Listed(ca, occurs, next, v);
    }
  }

  /** A removed clause must follow from the others. */
  lemma RemovedSuits(ca: Clauses, us: seq<Literal>, cr: nat)
    requires cr in ca && forall m: Model :: Suits(m, ca - {cr}, us) ==> Satisfies(m, ca[cr])
    ensures SameSuits(ca, us, ca - {cr}, us)
  {
    forall m: Model ensures Suits(m, ca, us) <==> Suits(m, ca - {cr}, us) {
      if Suits(m, ca - {cr}, us) {
        forall x | x in ca ensures Satisfies(m, ca[x]) {
          assert x != cr ==> x in ca - {cr} && (ca - {cr})[x] == ca[x];
        }
      }
      if Suits(m, ca, us) {
        forall x | x in ca - {cr} ensures Satisfies(m, (ca - {cr})[x]) {
          assert x in ca;
        }
      }
    }
  }

  lemma LookedUpListed(ca: Clauses, occurs: Occurrences, next: nat, v: nat, list: seq<nat>)
    requires AllListed(ca, occurs, next) && NoRepeats(list)
    requires forall cr :: cr in list <==> cr in OccList(occurs, v) && cr in ca
    ensures AllListed(ca, occurs[v := list], next)
  {
    var more := occurs[v := list];
    forall u: nat ensures Listed(ca, more, next, u) {
      assert Listed(ca, occurs, next, u);
    }
  }

  /** The first `n` variables of the clause have it on their lists. */
  ghost predicate PushedTo(before: Occurrences, after: Occurrences, c: Clause, n: nat, cr: nat) {
    n <= |c| && forall v: nat {:trigger OccList(after, v)} ::
      OccList(after, v) == OccList(before, v) + if Mentions(c[..n], v) then [cr] else []
  }

  lemma PushedNone(before: Occurrences, c: Clause, cr: nat)
    ensures PushedTo(before, before, c, 0, cr)
  {
  }

  lemma PushedNext(before: Occurrences, after: Occurrences, c: Clause, n: nat, cr: nat)
    requires PushedTo(before, after, c, n, cr) && n < |c| && Clean(c)
    ensures PushedTo(before, after[c[n].variable := OccList(after, c[n].variable) + [cr]], c, n + 1, cr)
  {
    var x := c[n].variable;
    var more := after[x := OccList(after, x) + [cr]];
    forall v: nat ensures OccList(more, v) == OccList(before, v) + if Mentions(c[..n + 1], v) then [cr] else [] {
      assert OccList(after, v) == OccList(before, v) + if Mentions(c[..n], v) then [cr] else [];
      PrefixMentions(c, n, v);
    }
  }

  lemma PrefixMentions(c: Clause, n: nat, v: nat)
    requires Clean(c) && n < |c|
    ensures Mentions(c[..n + 1], v) <==> Mentions(c[..n], v) || v == c[n].variable
    ensures v == c[n].variable ==> !Mentions(c[..n], v)
  {
    var d, e := c[..n], c[..n + 1];
    if Mentions(d, v) {
      var i :| 0 <= i < |d| && d[i].variable == v;
      assert e[i].variable == v;
    }
    if Mentions(e, v) {
      var i :| 0 <= i < |e| && e[i].variable == v;
      assert i < n ==> d[i].variable == v;
    }
    assert e[n] == c[n];
  }

  lemma AddedListed(ca: Clauses, before: Occurrences, after: Occurrences, next: nat, c: Clause)
    requires WellStored(ca, next) && AllListed(ca, before, next) && PushedTo(before, after, c, |c|, next) && Clean(c)
    requires |c| >= 2
    ensures WellStored(ca[next := c], next + 1) && AllListed(ca[next := c], after, next + 1)
  {
    assert c[..|c|] == c;
    var cb, more := ca[next := c], next + 1;
    forall v: nat ensures Listed(cb, after, more, v) {
      hide Mentions, Clean;
      assert Listed(ca, before, next, v);
      assert OccList(after, v) == OccList(before, v) + if Mentions(c, v) then [next] else [];
      var was, list := OccList(before, v), OccList(after, v);
      assert forall cr :: cr in list <==> cr in was || (cr == next && Mentions(c, v));
      forall i | 0 <= i < |was| ensures was[i] < next {
        assert was[i] in was;
      }
    }
  }

  lemma AddedSuits(ca: Clauses, us: seq<Literal>, next: nat, c: Clause)
    requires next !in ca
    ensures AddsSuits(ca, us, c, ca[next := c], us)
  {
    forall m: Model ensures Suits(m, ca[next := c], us) <==> Suits(m, ca, us) && Satisfies(m, c) {
      assert ca[next := c][next] == c;
      forall x | x in ca ensures ca[next := c][x] == ca[x] {}
    }
  }

  function WithoutRef(list: seq<nat>, cr: nat): seq<nat> {
    if list == [] then [] else if list[0] == cr then list[1..] else [list[0]] + WithoutRef(list[1..], cr)
  }

  lemma {:induction false} WithoutRefAt(list: seq<nat>, j: nat)
    requires NoRepeats(list) && j < |list|
    ensures WithoutRef(list, list[j]) == list[..j] + list[j + 1..]
  {
    if j > 0 {
      var rest := list[1..];
      assert NoRepeats(rest) && rest[j - 1] == list[j] && list[0] != list[j];
      hide NoRepeats;
      WithoutRefAt(rest, j - 1);
      assert list[..j] == [list[0]] + rest[..j - 1];
      assert list[j + 1..] == rest[j..];
    }
  }

  lemma {:induction false} WithoutRefIs(list: seq<nat>, cr: nat)
    requires NoRepeats(list)
    ensures NoRepeats(WithoutRef(list, cr)) && forall x :: x in WithoutRef(list, cr) <==> x in list && x != cr
    ensures |WithoutRef(list, cr)| == |list| - if cr in list then 1 else 0
  {
    if list != [] {
      assert list == [list[0]] + list[1..];
      assert NoRepeats(list[1..]);
      WithoutRefIs(list[1..], cr);
      assert list[0] !in list[1..];
      var rest := WithoutRef(list[1..], cr);
      assert forall i :: 0 <= i < |rest| ==> rest[i] in rest && rest[i] != list[0];
    }
  }

  /** The list of the removed literal's variable, with the clause taken off. */
  lemma StrengthenedOwnList(ca: Clauses, occurs: Occurrences, next: nat, cr: nat, d: Clause, v: nat, list: seq<nat>)
    requires Listed(ca, occurs, next, v) && !Mentions(d, v) && NoRepeats(list)
    requires forall x :: x in list <==> x in OccList(occurs, v) && x != cr
    ensures Listed(ca[cr := d], occurs[v := list], next, v)
  {
    hide Mentions, NoRepeats;
  }

  /** Any other list: the shorter clause keeps its other variables. */
  lemma StrengthenedOtherList(ca: Clauses, occurs: Occurrences, next: nat, cr: nat, d: Clause, u: nat, list: seq<nat>,
                              v: nat)
    requires Listed(ca, occurs, next, v) && cr in ca && u != v && (Mentions(d, v) <==> Mentions(ca[cr], v))
    ensures Listed(ca[cr := d], occurs[u := list], next, v)
  {
    hide Mentions, NoRepeats;
  }

  lemma ListedAt(ca: Clauses, occurs: Occurrences, next: nat, v: nat)
    requires AllListed(ca, occurs, next)
    ensures Listed(ca, occurs, next, v) && NoRepeats(OccList(occurs, v))
  {
    assert OccList(occurs, v) == OccList(occurs, v);
  }

  lemma StrengthenedStored(ca: Clauses, next: nat, cr: nat, d: Clause)
    requires WellStored(ca, next) && cr in ca && Clean(d) && |d| >= 2
    ensures WellStored(ca[cr := d], next)
  {
    hide Clean;
  }

  lemma StrengthenedListed(ca: Clauses, occurs: Occurrences, next: nat, cr: nat, l: Literal)
    requires WellStored(ca, next) && AllListed(ca, occurs, next) && cr in ca && l in ca[cr] && |ca[cr]| > 2
    ensures WellStored(ca[cr := Removed(ca[cr], l)], next)
    ensures AllListed(ca[cr := Removed(ca[cr], l)],
                      occurs[l.variable := WithoutRef(OccList(occurs, l.variable), cr)], next)
  {
    hide Mentions, WithoutRef, Removed, Clean, Listed, NoRepeats, WellStored;
    StoredAt(ca, next, cr);
    RemovedIs(ca[cr], l);
    var u := l.variable;
    var d, list := Removed(ca[cr], l), WithoutRef(OccList(occurs, u), cr);
    StrengthenedStored(ca, next, cr, d);
    ListedAt(ca, occurs, next, u);
    WithoutRefIs(OccList(occurs, u), cr);
    var cb, more := ca[cr := d], occurs[u := list];
    forall v: nat ensures Listed(cb, more, next, v) {
      ListedAt(ca, occurs, next, v);
      if v == u {
        StrengthenedOwnList(ca, occurs, next, cr, d, u, list);
      } else {
        StrengthenedOtherList(ca, occurs, next, cr, d, u, list, v);
      }
    }
  }

  lemma StrengthenedSuits(ca: Clauses, us: seq<Literal>, cr: nat, d: Clause)
    requires cr in ca && forall m: Model :: Suits(m, ca - {cr}, us) ==> (Satisfies(m, ca[cr]) <==> Satisfies(m, d))
    ensures SameSuits(ca, us, ca[cr := d], us) && AddsSuits(ca - {cr}, us, d, ca, us)
  {
    forall m: Model ensures Suits(m, ca, us) <==> Suits(m, ca[cr := d], us)
      ensures Suits(m, ca, us) <==> Suits(m, ca - {cr}, us) && Satisfies(m, d)
    {
      SplitSuits(m, ca, us, cr);
      SplitSuits(m, ca[cr := d], us, cr);
      assert ca[cr := d] - {cr} == ca - {cr};
    }
  }

  lemma SplitSuits(m: Model, ca: Clauses, us: seq<Literal>, cr: nat)
    requires cr in ca
    ensures Suits(m, ca, us) <==> Suits(m, ca - {cr}, us) && Satisfies(m, ca[cr])
  {
    var cb := ca - {cr};
    if Suits(m, cb, us) && Satisfies(m, ca[cr]) {
      forall x | x in ca ensures Satisfies(m, ca[x]) {
        assert x != cr ==> x in cb && cb[x] == ca[x];
      }
    }
    if Suits(m, ca, us) {
      forall x | x in cb ensures Satisfies(m, cb[x]) {
        assert x in ca;
      }
    }
  }

  /** Clause references with their literals: shrinks with every removal and strengthening. */
  ghost function Size(ca: Clauses): set<(nat, Literal)> {
    set cr, l | cr in ca && l in ca[cr] :: (cr, l)
  }

  lemma SizeRemoved(ca: Clauses, cr: nat)
    requires cr in ca && ca[cr] != []
    ensures Size(ca - {cr}) < Size(ca)
  {
    assert (cr, ca[cr][0]) in Size(ca) && (cr, ca[cr][0]) !in Size(ca - {cr});
  }

  lemma SizeStrengthened(ca: Clauses, cr: nat, l: Literal)
    requires cr in ca && l in ca[cr] && Clean(ca[cr])
    ensures Size(ca[cr := Removed(ca[cr], l)]) < Size(ca)
  {
    RemovedIs(ca[cr], l);
    assert (cr, l) in Size(ca) && (cr, l) !in Size(ca[cr := Removed(ca[cr], l)]);
  }

  lemma SuitsSelf(ca: Clauses, us: seq<Literal>)
    ensures SameSuits(ca, us, ca, us)
  {
  }

  lemma SuitsTrans(ca: Clauses, us: seq<Literal>, cb: Clauses, vs: seq<Literal>, cc: Clauses, ws: seq<Literal>)
    requires SameSuits(ca, us, cb, vs)
    ensures SameSuits(cb, vs, cc, ws) ==> SameSuits(ca, us, cc, ws)
    ensures Unsuitable(cb, vs) ==> Unsuitable(ca, us)
  {
    hide Suits;
  }

  /** What is left of a clause when literals false at level 0 are dropped. */
  ghost predicate Left(us: seq<Literal>, c: Clause, n: nat, out: Clause) {
    n <= |c| && Clean(out) && (forall l :: l in out ==> l in c[..n]) &&
    (forall l :: l in c[..n] ==> l in out || l.Negated() in us) && (forall l :: l in out ==>
      l !in us && l.Negated() !in us)
  }

  /** The literals that are not false at level 0. */
  function Remaining(us: seq<Literal>, c: Clause): Clause {
    if c == [] then []
    else
      var rest := Remaining(us, c[..|c| - 1]);
      if c[|c| - 1].Negated() in us then rest else rest + [c[|c| - 1]]
  }

  /** What assigning the literal of a unit clause does to the level-0 literals. */
  ghost predicate Enqueues(us: seq<Literal>, c: Clause, r: bool, vs: seq<Literal>) {
    |c| == 1 && (r <==> c[0].Negated() !in us || c[0] in us) &&
    vs == if c[0] in us || c[0].Negated() in us then us else us + c
  }

  /** What adding a clause does to the clauses, the level-0 literals, the next reference and the queue. */
  ghost predicate Adds(ca: Clauses, us: seq<Literal>, next: nat, q: seq<nat>, c: Clause, r: bool,
                       cb: Clauses, vs: seq<Literal>, after: nat, p: seq<nat>) {
    var rest := Remaining(us, c);
    if (exists l :: l in c && l in us) || |rest| == 0 then
      cb == ca && vs == us && after == next && p == q && (r <==> exists l :: l in c && l in us)
    else if |rest| == 1 then r && cb == ca && vs == us + rest && after == next && p == q
    else r && cb == ca[next := rest] && vs == us && after == next + 1 && p == q + [next]
  }

  /** Clauses stay as they are, and new ones are queued. */
  ghost predicate Queues(ca: Clauses, us: seq<Literal>, q: seq<nat>, cb: Clauses, vs: seq<Literal>, p: seq<nat>) {
    q <= p && us <= vs && ca.Keys <= cb.Keys &&
    forall cr {:trigger cb[cr]} :: cr in cb ==> if cr in ca then cb[cr] == ca[cr] else cr in p
  }

  lemma QueuesSelf(ca: Clauses, us: seq<Literal>, q: seq<nat>)
    ensures Queues(ca, us, q, ca, us, q)
  {
  }

  lemma FreshNext(ca: Clauses, next: nat)
    requires WellStored(ca, next)
    ensures next !in ca
  {
  }

  lemma QueuesNext(ca: Clauses, us: seq<Literal>, q: seq<nat>, cb: Clauses, vs: seq<Literal>, next: nat, p: seq<nat>,
                   c: Clause, r: bool, cc: Clauses, ws: seq<Literal>, after: nat, o: seq<nat>)
    requires Queues(ca, us, q, cb, vs, p) && Adds(cb, vs, next, p, c, r, cc, ws, after, o) && next !in cb
    ensures Queues(ca, us, q, cc, ws, o)
  {
    hide Remaining;
    forall cr {:trigger cc[cr]} | cr in cc ensures if cr in ca then cc[cr] == ca[cr] else cr in o {
      assert cr in cb ==> cc[cr] == cb[cr];
    }
  }

  lemma LeftNext(us: seq<Literal>, c: Clause, n: nat, out: Clause)
    requires Clean(c) && Left(us, c, n, out) && n < |c| && c[n] !in us
    ensures Left(us, c, n + 1, if c[n].Negated() in us then out else out + [c[n]])
  {
    assert c[..n + 1] == c[..n] + [c[n]];
    forall l | l in out ensures l.variable != c[n].variable {
      var i :| 0 <= i < n && c[..n][i] == l;
      assert c[i] == l;
    }
  }

  lemma LeftSatisfied(ca: Clauses, us: seq<Literal>, c: Clause, out: Clause, m: Model)
    requires Left(us, c, |c|, out) && Suits(m, ca, us)
    ensures Satisfies(m, c) <==> Satisfies(m, out)
  {
    assert c[..|c|] == c;
    if Satisfies(m, c) {
      var l :| l in c && Holds(m, l);
      assert l.Negated() in us ==> Holds(m, l.Negated());
    }
  }

  /** A clause that is true at level 0 already. */
  lemma TrueAlready(ca: Clauses, us: seq<Literal>, c: Clause, l: Literal)
    requires l in c && l in us
    ensures AddsSuits(ca, us, c, ca, us)
  {
    forall m: Model | Suits(m, ca, us) ensures Satisfies(m, c) {
      assert Holds(m, l);
    }
  }

  lemma EmptyLeft(ca: Clauses, us: seq<Literal>, c: Clause)
    requires Left(us, c, |c|, [])
    ensures forall m: Model :: !(Suits(m, ca, us) && Satisfies(m, c))
  {
    hide Suits, Left;
    forall m: Model ensures !(Suits(m, ca, us) && Satisfies(m, c)) {
      if Suits(m, ca, us) {
        LeftSatisfied(ca, us, c, [], m);
      }
    }
  }

  lemma UnitLeft(ca: Clauses, us: seq<Literal>, c: Clause, out: Clause)
    requires Left(us, c, |c|, out) && |out| == 1
    ensures AddsSuits(ca, us, c, ca, us + out)
  {
    forall m: Model ensures Suits(m, ca, us + out) <==> Suits(m, ca, us) && Satisfies(m, c) {
      UnitSuits(m, ca, us, out[0]);
      assert us + out == us + [out[0]];
      if Suits(m, ca, us) {
        LeftSatisfied(ca, us, c, out, m);
        assert Satisfies(m, out) <==> Holds(m, out[0]);
      }
    }
  }

  lemma UnitSuits(m: Model, ca: Clauses, us: seq<Literal>, l: Literal)
    ensures Suits(m, ca, us + [l]) <==> Suits(m, ca, us) && Holds(m, l)
  {
    if Suits(m, ca, us + [l]) {
      forall k | k in us ensures Holds(m, k) {
        assert k in us + [l];
      }
      assert l in us + [l];
    }
  }

  lemma MoreLeft(ca: Clauses, us: seq<Literal>, c: Clause, out: Clause, next: nat)
    requires Left(us, c, |c|, out) && next !in ca
    ensures AddsSuits(ca, us, c, ca[next := out], us)
  {
    AddedSuits(ca, us, next, out);
    hide Suits, Left;
    forall m: Model ensures Suits(m, ca[next := out], us) <==> Suits(m, ca, us) && Satisfies(m, c) {
      if Suits(m, ca, us) {
        LeftSatisfied(ca, us, c, out, m);
      }
    }
  }

  datatype Option = None | Some(cref: nat)

  /** The clause is stored, or it is a level-0 literal. */
  predicate Present(ca: Clauses, us: seq<Literal>, c: Clause, self: Option) {
    match self
    case Some(cr) => cr in ca && ca[cr] == c
    case None => |c| == 1 && c[0] in us
  }

  lemma PresentSatisfied(m: Model, ca: Clauses, us: seq<Literal>, c: Clause, self: Option)
    requires Present(ca, us, c, self) && Suits(m, ca, us)
    ensures Satisfies(m, c)
  {
    if self == None {
      assert Holds(m, c[0]) && c[0] in c;
    }
  }

  lemma SubsumedSuits(ca: Clauses, us: seq<Literal>, c: Clause, self: Option, d: nat)
    requires Present(ca, us, c, self) && self != Some(d) && d in ca && Contains(c, ca[d])
    ensures SameSuits(ca, us, ca - {d}, us) && Present(ca - {d}, us, c, self)
  {
    hide Suits, Contains;
    forall m: Model | Suits(m, ca - {d}, us) ensures Satisfies(m, ca[d]) {
      PresentSatisfied(m, ca - {d}, us, c, self);
      SubsumedImplied(c, ca[d], m);
    }
    RemovedSuits(ca, us, d);
  }

  lemma StrengthenSuits(ca: Clauses, us: seq<Literal>, c: Clause, self: Option, d: nat, p: Literal)
    requires Clean(c) && Present(ca, us, c, self) && self != Some(d) && d in ca && Clean(ca[d])
    requires ContainsBut(c, ca[d], p)
    ensures forall m: Model :: Suits(m, ca - {d}, us) ==>
        (Satisfies(m, ca[d]) <==> Satisfies(m, Removed(ca[d], p.Negated())))
  {
    hide Suits, ContainsBut, Clean;
    forall m: Model | Suits(m, ca - {d}, us) ensures Satisfies(m, ca[d]) <==>
      Satisfies(m, Removed(ca[d], p.Negated())) {
      PresentSatisfied(m, ca - {d}, us, c, self);
      StrengthenedSame(c, ca[d], p, m);
    }
  }

  lemma HasNegation(c: Clause, d: Clause, p: Literal)
    requires ContainsBut(c, d, p)
    ensures p.Negated() in d
  {
  }

  lemma StillPresent(ca: Clauses, us: seq<Literal>, c: Clause, self: Option, cb: Clauses, vs: seq<Literal>, d: nat)
    requires Present(ca, us, c, self) && self != Some(d) && us <= vs && cb.Keys <= ca.Keys && ca.Keys - {d} <= cb.Keys
    requires forall x :: x in cb && x != d ==> cb[x] == ca[x]
    ensures Present(cb, vs, c, self)
  {
    if self == None {
      var i :| 0 <= i < |us| && us[i] == c[0];
      assert vs[i] == c[0];
    }
  }

  lemma UnitClean(l: Literal)
    ensures Clean([l])
  {
  }

  /** No new literals: clauses only lose some, and new assignments come from clauses. */
  ghost predicate Smaller(ca: Clauses, us: seq<Literal>, cb: Clauses, vs: seq<Literal>) {
    us <= vs && (forall cr :: cr in cb ==> cr in ca && forall l :: l in cb[cr] ==> l in ca[cr]) &&
    (forall i :: |us| <= i < |vs| ==> Occurs(ca, vs[i]))
  }

  predicate Occurs(ca: Clauses, l: Literal) { exists cr :: cr in ca && l in ca[cr] }

  // ---------------------------------------------------------------- the queue is worked off

  /** Every clause that was queued or has changed is spent or queued again, and so are the level-0
      literals from the `b0`-th to before the `b`-th. */
  ghost predicate WorkedOff(ca0: Clauses, q0: seq<nat>, b0: nat, ca: Clauses, us: seq<Literal>, q: seq<nat>, b: nat,
                            lim: int) {
    b0 <= b <= |us| && ca.Keys <= ca0.Keys &&
    (forall cr {:trigger ca[cr]} :: cr in ca && (cr in q0 || ca[cr] != ca0[cr]) ==>
       cr in q || Spent(ca, ca[cr], Some(cr), lim)) &&
    forall i {:trigger us[i]} :: b0 <= i < b ==> Spent(ca, [us[i]], None, lim)
  }

  /** Every clause that is new, was queued or has changed is spent, and so are the new level-0 literals. */
  ghost predicate Finished(ca0: Clauses, q0: seq<nat>, b0: nat, ca: Clauses, us: seq<Literal>, lim: int) {
    b0 <= |us| &&
    (forall cr {:trigger ca[cr]} :: cr in ca && (cr !in ca0 || cr in q0 || ca[cr] != ca0[cr]) ==>
       Spent(ca, ca[cr], Some(cr), lim)) &&
    forall i {:trigger us[i]} :: b0 <= i < |us| ==> Spent(ca, [us[i]], None, lim)
  }

  lemma NarrowsNothing(oc: Occurrences, od: Occurrences, v: nat)
    requires Narrows(oc, od) && OccList(oc, v) == []
    ensures OccList(od, v) == []
  {
    if OccList(od, v) != [] {
      NarrowsFirst(oc, od, v);
    }
  }

  lemma NarrowsFirst(oc: Occurrences, od: Occurrences, v: nat)
    requires Narrows(oc, od) && OccList(od, v) != []
    ensures OccList(oc, v) != []
  {
    assert OccList(od, v)[0] in OccList(od, v);
  }

  lemma SoFinished(ca: Clauses, q: seq<nat>, cb: Clauses, us: seq<Literal>, cc: Clauses, vs: seq<Literal>, p: seq<nat>,
                   b: nat, b0: nat, cd: Clauses, ws: seq<Literal>, lim: int, v: nat)
    requires Others(ca, cb, v) && Queues(cb, us, q, cc, vs, p) && b == |ws|
    requires WorkedOff(cc, p, b0, cd, ws, [], b, lim)
    ensures Finished(ca, q, b0, cd, ws, lim)
  {
    hide Spent;
    forall cr {:trigger cd[cr]} | cr in cd && (cr !in ca || cr in q || cd[cr] != ca[cr])
      ensures Spent(cd, cd[cr], Some(cr), lim)
    {
      assert cr in cc && (cr in cb ==> cr in ca && cb[cr] == ca[cr] && cc[cr] == cb[cr]);
    }
  }

  lemma WorkBegins(ca: Clauses, q: seq<nat>, b: nat, us: seq<Literal>, lim: int)
    requires b <= |us|
    ensures WorkedOff(ca, q, b, ca, us, q, b, lim)
  {
    hide Spent;
  }

  lemma WorkSkip(ca0: Clauses, q0: seq<nat>, b0: nat, ca: Clauses, us: seq<Literal>, q: seq<nat>, b: nat, lim: int)
    requires q != [] && q[0] !in ca
    ensures WorkedOff(ca0, q0, b0, ca, us, q, b, lim) ==> WorkedOff(ca0, q0, b0, ca, us, q[1..], b, lim)
  {
    hide Spent;
    assert q == [q[0]] + q[1..];
  }

  lemma SmallerKeeps(ca: Clauses, us: seq<Literal>, cb: Clauses, vs: seq<Literal>)
    requires Smaller(ca, us, cb, vs)
    ensures us <= vs && cb.Keys <= ca.Keys
  {
  }

  /** One more clause or level-0 literal has been used on all others. */
  lemma WorkNext(ca0: Clauses, q0: seq<nat>, b0: nat, ca: Clauses, us: seq<Literal>, q: seq<nat>, b: nat,
                 c: Clause, self: Option, popped: seq<nat>, cb: Clauses, vs: seq<Literal>, p: seq<nat>, after: nat,
                 lim: int)
    requires WorkedOff(ca0, q0, b0, ca, us, q, b, lim) && us <= vs && Shrinks(ca, popped, cb, p, lim)
    requires Spent(cb, c, self, lim)
    requires if self.Some? then q != [] && q[0] == self.cref && popped == q[1..] && after == b &&
                                self.cref in cb && cb[self.cref] == c
             else q == [] && popped == q && b < |us| && after == b + 1 && c == [us[b]]
    ensures WorkedOff(ca0, q0, b0, cb, vs, p, after, lim)
  {
    hide Spent, Contains;
    assert q != [] ==> q == [q[0]] + q[1..];
    forall cr | cr in cb && (cr in q0 || cb[cr] != ca0[cr]) ensures cr in p || Spent(cb, cb[cr], Some(cr), lim) {
      if cb[cr] == ca[cr] && Spent(ca, ca[cr], Some(cr), lim) {
        StillSpent(ca, popped, cb, p, ca[cr], Some(cr), lim);
      }
    }
    forall i | b0 <= i < after ensures Spent(cb, [vs[i]], None, lim) {
      if i < b {
        assert us[i] == vs[i];
        StillSpent(ca, popped, cb, p, [us[i]], None, lim);
      }
    }
  }

  // ---------------------------------------------------------------- nothing left to subsume or strengthen

  /** What an outcome does to the clause `d`: nothing, away with it, or one literal off and on the queue. */
  ghost predicate Uses(ca: Clauses, us: seq<Literal>, q: seq<nat>, d: nat, outcome: Outcome, r: bool,
                       cb: Clauses, vs: seq<Literal>, p: seq<nat>)
    requires d in ca
  {
    match outcome
    case Unrelated => r && cb == ca && vs == us && p == q
    case Subsumed => r && cb == ca - {d} && vs == us && p == q
    case Strengthens(l) =>
      p == q + [d] &&
      if |ca[d]| > 2 then r && vs == us && cb == ca[d := Removed(ca[d], l.Negated())]
      else cb == ca - {d} && Enqueues(us, Removed(ca[d], l.Negated()), r, vs)
  }

  lemma UsesShrinks(ca: Clauses, us: seq<Literal>, q: seq<nat>, c: Clause, d: nat, outcome: Outcome, r: bool,
                    cb: Clauses, vs: seq<Literal>, p: seq<nat>, lim: int)
    requires d in ca && Uses(ca, us, q, d, outcome, r, cb, vs, p) && Within(ca[d], lim) && Clean(c) && Clean(ca[d])
    requires outcome == Subsumed <==> Contains(c, ca[d])
    requires forall p :: outcome == Strengthens(p) <==> ContainsBut(c, ca[d], p)
    ensures Shrinks(ca, q, cb, p, lim)
    ensures d in cb ==> !Relates(c, cb[d])
  {
    hide Contains, ContainsBut, Clean;
    if outcome.Strengthens? {
      RemovedIs(ca[d], outcome.p.Negated());
      RemovedContained(ca[d], outcome.p.Negated());
      StrengthenedUnrelated(c, ca[d], outcome.p);
    }
    forall x | x in cb ensures Contains(cb[x], ca[x]) {
      ContainsSelf(ca[x]);
    }
  }

  lemma ContainsSelf(c: Clause)
    ensures Contains(c, c)
  {
  }

  lemma RemovedContained(c: Clause, l: Literal)
    requires Clean(c)
    ensures Contains(Removed(c, l), c)
  {
    RemovedIs(c, l);
  }

  lemma StrengthenedUnrelated(c: Clause, d: Clause, p: Literal)
    requires Clean(d) && ContainsBut(c, d, p)
    ensures !Relates(c, Removed(d, p.Negated()))
  {
    RemovedIs(d, p.Negated());
    var e := Removed(d, p.Negated());
    OneSign(d, p.variable);
    assert p in c && p !in e && p.Negated() !in e;
    forall k ensures !ContainsBut(c, e, k) {
      assert ContainsBut(c, e, k) ==> k == p;
    }
  }

  /** What the clause relates to is still to come on the list. */
  ghost predicate Ahead(ca: Clauses, c: Clause, self: Option, lim: int, rest: seq<nat>) {
    forall d {:trigger ca[d]} :: d in ca && self != Some(d) && Within(ca[d], lim) && Relates(c, ca[d]) ==> d in rest
  }

  lemma AheadBegins(ca: Clauses, c: Clause, self: Option, lim: int, list: seq<nat>, best: nat)
    requires forall cr :: cr in list <==> cr in ca && Mentions(ca[cr], best)
    requires Mentions(c, best)
    ensures Ahead(ca, c, self, lim, list)
  {
    hide Mentions;
    forall d | d in ca && Relates(c, ca[d]) ensures Mentions(ca[d], best) {
      RelatesMentions(c, ca[d], best);
    }
  }

  lemma RelatesMentions(c: Clause, d: Clause, v: nat)
    requires Relates(c, d) && Mentions(c, v)
    ensures Mentions(d, v)
  {
    hide Contains, ContainsBut;
    var p: Literal := FromIndex(0);
    if !Contains(c, d) {
      p :| ContainsBut(c, d, p);
    }
    RelatedMentions(c, d, p);
  }

  /** One clause has been looked at: it is not related, too large, gone, or no longer related. */
  lemma AheadNext(ca: Clauses, q: seq<nat>, cb: Clauses, p: seq<nat>, c: Clause, self: Option, lim: int,
                  rest: seq<nat>, more: seq<nat>, d: nat)
    requires Ahead(ca, c, self, lim, rest) && Shrinks(ca, q, cb, p, lim)
    requires d in cb ==> self == Some(d) || !Within(cb[d], lim) || !Relates(c, cb[d])
    requires forall x :: x in rest && x != d ==> x in more
    ensures Ahead(cb, c, self, lim, more)
  {
    hide Relates, Contains;
    forall x | x in cb && self != Some(x) && Within(cb[x], lim) && Relates(c, cb[x]) ensures x in more {
      RelatesLess(c, ca[x], cb[x]);
    }
  }

  /** The list when the clause was taken off it, or stays on it as a removed one. */
  lemma StillAhead(list: seq<nat>, j: nat, now: seq<nat>, ca: Clauses, c: Clause, self: Option, lim: int)
    requires NoRepeats(list) && j < |list| && (now == WithoutRef(list, list[j]) || now == list)
    requires Ahead(ca, c, self, lim, list[j + 1..])
    ensures j <= |now| && NoRepeats(now) && Ahead(ca, c, self, lim, now[j..])
  {
    hide Relates, Ahead, WithoutRef;
    if now == list {
      assert list[j..] == [list[j]] + list[j + 1..];
      AheadMore(ca, c, self, lim, list[j + 1..], list[j..]);
    } else {
      WithoutRefAt(list, j);
      WithoutRefIs(list, list[j]);
      hide NoRepeats;
      assert now[j..] == list[j + 1..];
    }
  }

  lemma AheadMore(ca: Clauses, c: Clause, self: Option, lim: int, rest: seq<nat>, more: seq<nat>)
    requires Ahead(ca, c, self, lim, rest) && forall x :: x in rest ==> x in more
    ensures Ahead(ca, c, self, lim, more)
  {
    hide Relates;
  }

  lemma AheadEnds(ca: Clauses, c: Clause, self: Option, lim: int, rest: seq<nat>)
    requires Ahead(ca, c, self, lim, rest) && rest == []
    ensures Spent(ca, c, self, lim)
  {
    hide Relates;
  }

  ghost predicate Relates(c: Clause, d: Clause) { Contains(c, d) || exists p :: ContainsBut(c, d, p) }

  /** Clauses as large as the limit are not looked at. */
  predicate Within(d: Clause, lim: int) { lim == -1 || |d| < lim }

  /** The clause neither subsumes nor strengthens another one within the limit. */
  ghost predicate Spent(ca: Clauses, c: Clause, self: Option, lim: int) {
    forall d {:trigger ca[d]} :: d in ca && self != Some(d) && Within(ca[d], lim) ==> !Relates(c, ca[d])
  }

  /** Clauses go, or get shorter and back on the queue. */
  ghost predicate Shrinks(ca: Clauses, q: seq<nat>, cb: Clauses, p: seq<nat>, lim: int) {
    q <= p && forall d {:trigger cb[d]} :: d in cb ==>
      d in ca && Contains(cb[d], ca[d]) && (cb[d] == ca[d] || (d in p && Within(ca[d], lim)))
  }

  /** Occurrence lists only lose references. */
  ghost predicate Narrows(oc: Occurrences, od: Occurrences) {
    forall v, cr {:trigger cr in OccList(od, v)} :: cr in OccList(od, v) ==> cr in OccList(oc, v)
  }

  lemma NarrowsWithout(oc: Occurrences, od: Occurrences, v: nat, cr: nat)
    requires forall u :: u != v ==> OccList(od, u) == OccList(oc, u)
    requires OccList(od, v) == OccList(oc, v) || OccList(od, v) == WithoutRef(OccList(oc, v), cr)
    ensures Narrows(oc, od)
  {
    WithoutRefIn(OccList(oc, v), cr);
  }

  lemma {:induction false} WithoutRefIn(list: seq<nat>, cr: nat)
    ensures forall d :: d in WithoutRef(list, cr) ==> d in list
  {
    if list != [] && list[0] != cr {
      WithoutRefIn(list[1..], cr);
    }
  }

  /** What a pass of one clause over the others does at most. */
  ghost predicate Reduces(ca: Clauses, us: seq<Literal>, q: seq<nat>, oc: Occurrences,
                          cb: Clauses, vs: seq<Literal>, p: seq<nat>, od: Occurrences, lim: int) {
    Smaller(ca, us, cb, vs) && Shrinks(ca, q, cb, p, lim) && Narrows(oc, od) &&
    (Size(cb) < Size(ca) || (cb == ca && vs == us && p == q))
  }

  lemma ReducesSelf(ca: Clauses, us: seq<Literal>, q: seq<nat>, oc: Occurrences, od: Occurrences, lim: int)
    requires Narrows(oc, od)
    ensures Reduces(ca, us, q, oc, ca, us, q, od, lim)
  {
    hide Size, Smaller, Narrows;
    SmallerSelf(ca, us);
    ShrinksSelf(ca, q, lim);
  }

  lemma ReducesNext(ca: Clauses, us: seq<Literal>, q: seq<nat>, oc: Occurrences, cb: Clauses, vs: seq<Literal>,
                    p: seq<nat>, od: Occurrences, cc: Clauses, ws: seq<Literal>, o: seq<nat>, oe: Occurrences, lim: int)
    requires Reduces(ca, us, q, oc, cb, vs, p, od, lim)
    requires Smaller(cb, vs, cc, ws) && Shrinks(cb, p, cc, o, lim) && Narrows(od, oe)
    requires Size(cc) < Size(cb) || (cc == cb && ws == vs && o == p)
    ensures Reduces(ca, us, q, oc, cc, ws, o, oe, lim)
  {
    SmallerTrans(ca, us, cb, vs, cc, ws);
    ShrinksTrans(ca, q, cb, p, cc, o, lim);
    hide Size, Smaller, Shrinks;
  }

  lemma ReducesMeans(ca: Clauses, us: seq<Literal>, q: seq<nat>, oc: Occurrences, cb: Clauses, vs: seq<Literal>,
                     p: seq<nat>, od: Occurrences, lim: int)
    requires Reduces(ca, us, q, oc, cb, vs, p, od, lim)
    ensures Smaller(ca, us, cb, vs) && Shrinks(ca, q, cb, p, lim) && Narrows(oc, od)
    ensures Size(cb) < Size(ca) || (cb == ca && vs == us && p == q)
  {
    hide Size, Smaller, Shrinks, Narrows;
  }

  lemma NarrowsSelf(oc: Occurrences)
    ensures Narrows(oc, oc)
  {
  }

  lemma NarrowsTrans(oc: Occurrences, od: Occurrences, oe: Occurrences)
    requires Narrows(oc, od) && Narrows(od, oe)
    ensures Narrows(oc, oe)
  {
    hide OccList;
  }

  lemma ShrinksQueue(ca: Clauses, q: seq<nat>, cb: Clauses, p: seq<nat>, lim: int)
    requires Shrinks(ca, q, cb, p, lim)
    ensures |q| <= |p|
  {
  }

  lemma ShrinksSelf(ca: Clauses, q: seq<nat>, lim: int)
    ensures Shrinks(ca, q, ca, q, lim)
  {
  }

  lemma ShrinksTrans(ca: Clauses, q: seq<nat>, cb: Clauses, p: seq<nat>, cc: Clauses, o: seq<nat>, lim: int)
    requires Shrinks(ca, q, cb, p, lim) && Shrinks(cb, p, cc, o, lim)
    ensures Shrinks(ca, q, cc, o, lim)
  {
  }

  lemma RelatesLess(c: Clause, d: Clause, e: Clause)
    requires Contains(e, d) && Relates(c, e)
    ensures Relates(c, d)
  {
    if !Contains(c, e) {
      var p :| ContainsBut(c, e, p);
      assert ContainsBut(c, d, p);
    }
  }

  /** What was spent stays so. */
  lemma StillSpent(ca: Clauses, q: seq<nat>, cb: Clauses, p: seq<nat>, c: Clause, self: Option, lim: int)
    requires Shrinks(ca, q, cb, p, lim) && Spent(ca, c, self, lim)
    ensures Spent(cb, c, self, lim)
  {
    hide Relates, Contains;
    forall d | d in cb && self != Some(d) && Within(cb[d], lim) ensures !Relates(c, cb[d]) {
      if Relates(c, cb[d]) {
        RelatesLess(c, ca[d], cb[d]);
      }
    }
  }

  lemma SmallerSelf(ca: Clauses, us: seq<Literal>)
    ensures Smaller(ca, us, ca, us)
  {
  }

  lemma SmallerTrans(ca: Clauses, us: seq<Literal>, cb: Clauses, vs: seq<Literal>, cc: Clauses, ws: seq<Literal>)
    requires Smaller(ca, us, cb, vs) && Smaller(cb, vs, cc, ws)
    ensures Smaller(ca, us, cc, ws)
  {
    forall i | |us| <= i < |ws| ensures Occurs(ca, ws[i]) {
      if i < |vs| {
        assert ws[i] == vs[i];
      } else {
        assert Occurs(cb, ws[i]);
        var cr :| cr in cb && ws[i] in cb[cr];
        assert cr in ca && ws[i] in ca[cr];
      }
    }
  }

  lemma SmallerRemoved(ca: Clauses, us: seq<Literal>, cb: Clauses, vs: seq<Literal>, d: nat)
    requires Smaller(ca, us, cb, vs)
    ensures Smaller(ca, us, cb - {d}, vs)
  {
  }

  lemma SmallerStrengthened(ca: Clauses, us: seq<Literal>, cb: Clauses, vs: seq<Literal>, cc: Clauses,
                            ws: seq<Literal>, d: nat)
    requires Smaller(ca, us, cb, vs) && vs <= ws && cc.Keys <= cb.Keys && d in cb
    requires forall x :: x in cc ==> forall k :: k in cc[x] ==> k in cb[x]
    requires forall i :: |vs| <= i < |ws| ==> ws[i] in cb[d]
    ensures Smaller(ca, us, cc, ws)
  {
    assert Smaller(cb, vs, cc, ws);
    SmallerTrans(ca, us, cb, vs, cc, ws);
  }

  /** The clause set with every level-0 literal as a unit clause. */
  ghost function Formula(ca: Clauses, us: seq<Literal>): set<Clause> {
    (set cr | cr in ca :: ca[cr]) + (set i | 0 <= i < |us| :: [us[i]])
  }

  lemma FormulaModels(ca: Clauses, us: seq<Literal>, m: Model)
    ensures Models(m, Formula(ca, us)) <==> Suits(m, ca, us)
  {
    if Models(m, Formula(ca, us)) {
      forall l | l in us ensures Holds(m, l) {
        var i :| 0 <= i < |us| && us[i] == l;
        assert [us[i]] in Formula(ca, us);
      }
    }
    if Suits(m, ca, us) {
      forall c | c in Formula(ca, us) ensures Satisfies(m, c) {
        if i :| 0 <= i < |us| && c == [us[i]] {
          assert Holds(m, us[i]) && us[i] in c;
        }
      }
    }
  }

  /** No eliminated variable is left. */
  ghost predicate Cleared(ca: Clauses, us: seq<Literal>, gone: set<nat>) {
    (forall cr, v :: cr in ca && v in gone ==> !Mentions(ca[cr], v)) && forall i :: 0 <= i < |us| ==>
      us[i].variable !in gone
  }

  lemma ClearedWellFormed(ca: Clauses, us: seq<Literal>, next: nat, gone: set<nat>, es: seq<Entry>)
    requires WellStored(ca, next) && Cleared(ca, us, gone)
    ensures WellFormed(State(Formula(ca, us), gone, es))
  {
    forall c | c in Formula(ca, us) ensures Clean(c) && forall l :: l in c ==> l.variable !in gone {
      if cr :| cr in ca && ca[cr] == c {
        forall l | l in c ensures l.variable !in gone {
          MentionsMember(c, l);
        }
      }
    }
  }

  lemma SmallerCleared(ca: Clauses, us: seq<Literal>, cb: Clauses, vs: seq<Literal>, gone: set<nat>)
    requires Cleared(ca, us, gone) && Smaller(ca, us, cb, vs)
    ensures Cleared(cb, vs, gone)
  {
    forall cr, v | cr in cb && v in gone ensures !Mentions(cb[cr], v) {
      if Mentions(cb[cr], v) {
        var i :| 0 <= i < |cb[cr]| && cb[cr][i].variable == v;
        assert cb[cr][i] in cb[cr];
        MentionsMember(ca[cr], cb[cr][i]);
      }
    }
    forall i | 0 <= i < |vs| ensures vs[i].variable !in gone {
      if i < |us| {
        assert vs[i] == us[i];
      } else {
        assert Occurs(ca, vs[i]);
        var cr :| cr in ca && vs[i] in ca[cr];
        MentionsMember(ca[cr], vs[i]);
      }
    }
  }

  function ClausesOf(ca: Clauses, refs: seq<nat>): (r: seq<Clause>)
    requires forall i :: 0 <= i < |refs| ==> refs[i] in ca
    ensures |r| == |refs| && forall i :: 0 <= i < |refs| ==> r[i] == ca[refs[i]]
  {
    if refs == [] then [] else ClausesOf(ca, refs[..|refs| - 1]) + [ca[refs[|refs| - 1]]]
  }

  /** The references of the clauses with a literal of the variable, by its sign. */
  ghost predicate Sided(ca: Clauses, refs: seq<nat>, l: Literal) {
    forall i :: 0 <= i < |refs| ==>
      refs[i] in ca && l in ca[refs[i]] && Clean(ca[refs[i]]) && Mentions(ca[refs[i]], l.variable)
  }

  /** The clauses that remain when those of the variable are gone. */
  ghost predicate Others(ca: Clauses, cb: Clauses, v: nat) {
    forall cr :: (cr in cb <==> cr in ca && !Mentions(ca[cr], v)) && (cr in cb ==> cb[cr] == ca[cr])
  }

  lemma UnitMentions(l: Literal, v: nat)
    ensures Mentions([l], v) <==> l.variable == v
  {
    assert [l][0] == l;
  }

  lemma SidesSplit(ca: Clauses, us: seq<Literal>, v: nat, pos: seq<nat>, neg: seq<nat>)
    requires Sided(ca, pos, Literal(v, true)) && Sided(ca, neg, Literal(v, false))
    requires forall cr :: cr in ca && Mentions(ca[cr], v) ==> cr in pos || cr in neg
    requires forall i :: 0 <= i < |us| ==> us[i].variable != v
    ensures Splits(Formula(ca, us), v, ClausesOf(ca, pos), ClausesOf(ca, neg))
  {
    var f, ps, ns := Formula(ca, us), ClausesOf(ca, pos), ClausesOf(ca, neg);
    forall c | c in f && Mentions(c, v) ensures c in ps || c in ns {
      if cr :| cr in ca && ca[cr] == c {
        if cr in pos {
          var i :| 0 <= i < |pos| && pos[i] == cr;
          assert ps[i] == c;
        } else {
          var i :| 0 <= i < |neg| && neg[i] == cr;
          assert ns[i] == c;
        }
      } else {
        var i :| 0 <= i < |us| && c == [us[i]];
        UnitMentions(us[i], v);
      }
    }
  }

  /** The produced clauses `rs` cover all pairs up to `(i, j)`. */
  ghost predicate Covered(ps: seq<Clause>, ns: seq<Clause>, v: nat, i: nat, j: nat, rs: set<Clause>) {
    (forall c :: c in rs ==> ResolventOf(ps, ns, v, c)) &&
    (forall a, b :: 0 <= a < |ps| && 0 <= b < |ns| && (a < i || (a == i && b < j)) && !Clash(ps[a], ns[b], v) ==>
       exists c :: c in rs && IsResolvent(ps[a], ns[b], v, c))
  }

  lemma CoveredNext(ps: seq<Clause>, ns: seq<Clause>, v: nat, i: nat, j: nat, rs: set<Clause>, c: Clause)
    requires Covered(ps, ns, v, i, j, rs) && i < |ps| && j < |ns|
    ensures Clash(ps[i], ns[j], v) ==> Covered(ps, ns, v, i, j + 1, rs)
    ensures !Clash(ps[i], ns[j], v) && IsResolvent(ps[i], ns[j], v, c) ==> Covered(ps, ns, v, i, j + 1, rs + {c})
  {
    hide Clash, IsResolvent;
    if !Clash(ps[i], ns[j], v) && IsResolvent(ps[i], ns[j], v, c) {
      assert ps[i] in ps && ns[j] in ns;
      assert ResolventOf(ps, ns, v, c);
      forall a, b | 0 <= a < |ps| && 0 <= b < |ns| && (a < i || (a == i && b < j + 1)) && !Clash(ps[a], ns[b], v)
        ensures exists x :: x in rs + {c} && IsResolvent(ps[a], ns[b], v, x)
      {
        if a == i && b == j {
          assert c in rs + {c};
        } else {
          var x :| x in rs && IsResolvent(ps[a], ns[b], v, x);
          assert x in rs + {c};
        }
      }
    }
  }

  lemma CoveredRow(ps: seq<Clause>, ns: seq<Clause>, v: nat, i: nat, rs: set<Clause>)
    requires Covered(ps, ns, v, i, |ns|, rs)
    ensures Covered(ps, ns, v, i + 1, 0, rs)
  {
    hide Clash, IsResolvent;
  }

  lemma CoveredNone(ps: seq<Clause>, ns: seq<Clause>, v: nat)
    ensures Covered(ps, ns, v, 0, 0, {})
  {
  }

  /** The state right after the elimination. */
  ghost function Middle(us: seq<Literal>, gone: set<nat>, es: seq<Entry>, v: nat, ps: seq<Clause>,
                        ns: seq<Clause>, cb: Clauses, rs: set<Clause>): State
    requires forall i :: 0 <= i < |ps| ==> Mentions(ps[i], v)
    requires forall i :: 0 <= i < |ns| ==> Mentions(ns[i], v)
  {
    State(Formula(cb, us) + rs, gone + {v}, es + Stored(v, ps, ns))
  }

  lemma OthersFormula(ca: Clauses, us: seq<Literal>, v: nat, cb: Clauses, c: Clause)
    requires Others(ca, cb, v) && forall i :: 0 <= i < |us| ==> us[i].variable != v
    ensures c in Formula(cb, us) <==> c in Formula(ca, us) && !Mentions(c, v)
  {
    hide Mentions;
    if c in Formula(ca, us) && !Mentions(c, v) {
      if cr :| cr in ca && ca[cr] == c {
        assert cr in cb && cb[cr] == c;
      }
    }
    if c in Formula(cb, us) {
      if cr :| cr in cb && cb[cr] == c {
        assert cr in ca && ca[cr] == c;
      } else {
        var i :| 0 <= i < |us| && c == [us[i]];
        UnitMentions(us[i], v);
      }
    }
  }

  lemma CoveredPairs(ps: seq<Clause>, ns: seq<Clause>, v: nat, rs: set<Clause>, p: Clause, q: Clause)
    requires Covered(ps, ns, v, |ps|, 0, rs) && p in ps && q in ns && !Clash(p, q, v)
    ensures exists c :: c in rs && IsResolvent(p, q, v, c)
  {
    hide Clash, IsResolvent;
    var a :| 0 <= a < |ps| && ps[a] == p;
    var b :| 0 <= b < |ns| && ns[b] == q;
    assert !Clash(ps[a], ns[b], v);
  }

  lemma MiddleEliminates(ca: Clauses, us: seq<Literal>, gone: set<nat>, es: seq<Entry>, v: nat, ps: seq<Clause>,
                         ns: seq<Clause>, cb: Clauses, rs: set<Clause>)
    requires v !in gone && Splits(Formula(ca, us), v, ps, ns) && Others(ca, cb, v) && Covered(ps, ns, v, |ps|, 0, rs)
    requires forall i :: 0 <= i < |us| ==> us[i].variable != v
    ensures Eliminates(State(Formula(ca, us), gone, es), Middle(us, gone, es, v, ps, ns, cb, rs), v, ps, ns)
  {
    var f, g := Formula(ca, us), Formula(cb, us) + rs;
    assert Resolved(f, g, v, ps, ns) by {
      hide Clash, IsResolvent, Formula, Mentions, Others, Splits;
      forall c ensures c in Formula(cb, us) <==> c in f && !Mentions(c, v) {
        OthersFormula(ca, us, v, cb, c);
      }
      forall p, q | p in ps && q in ns && !Clash(p, q, v) ensures exists c :: c in g && IsResolvent(p, q, v, c) {
        CoveredPairs(ps, ns, v, rs, p, q);
        var c :| c in rs && IsResolvent(p, q, v, c);
        assert c in g;
      }
      CoveredAll(ps, ns, v, rs);
      hide ResolventOf, Covered;
    }
    hide Resolved, Formula, Splits;
  }

  lemma CoveredAll(ps: seq<Clause>, ns: seq<Clause>, v: nat, rs: set<Clause>)
    requires Covered(ps, ns, v, |ps|, 0, rs)
    ensures forall c :: c in rs ==> ResolventOf(ps, ns, v, c)
  {
  }

  lemma MiddleWellFormed(ca: Clauses, us: seq<Literal>, next: nat, gone: set<nat>, es: seq<Entry>, v: nat,
                         ps: seq<Clause>, ns: seq<Clause>, cb: Clauses, rs: set<Clause>)
    requires WellStored(ca, next) && Cleared(ca, us, gone) && Others(ca, cb, v) && Splits(Formula(ca, us), v, ps, ns)
    requires Covered(ps, ns, v, |ps|, 0, rs)
    requires forall i :: 0 <= i < |us| ==> us[i].variable != v
    ensures WellFormed(Middle(us, gone, es, v, ps, ns, cb, rs))
  {
    ClearedWellFormed(ca, us, next, gone, es);
    OthersCleared(ca, cb, us, gone, v, next);
    ClearedWellFormed(cb, us, next, gone + {v}, es);
    CoveredAll(ps, ns, v, rs);
    hide Formula, Covered, Others, WellStored, Cleared, Mentions, Clean;
    forall c | c in rs ensures Clean(c) && forall l :: l in c ==> l.variable !in gone + {v} {
      ResolventCleared(Formula(ca, us), gone, v, ps, ns, c, es);
    }
  }

  lemma ResolventCleared(f: set<Clause>, gone: set<nat>, v: nat, ps: seq<Clause>, ns: seq<Clause>, c: Clause,
                         es: seq<Entry>)
    requires WellFormed(State(f, gone, es)) && Splits(f, v, ps, ns) && ResolventOf(ps, ns, v, c)
    ensures Clean(c) && forall l :: l in c ==> l.variable !in gone + {v}
  {
    hide Mentions, Clean;
    var p, q :| p in ps && q in ns && !Clash(p, q, v) && IsResolvent(p, q, v, c);
    assert p in f && q in f;
  }

  lemma OthersCleared(ca: Clauses, cb: Clauses, us: seq<Literal>, gone: set<nat>, v: nat, next: nat)
    requires Cleared(ca, us, gone) && Others(ca, cb, v) && WellStored(ca, next)
    requires forall i :: 0 <= i < |us| ==> us[i].variable != v
    ensures Cleared(cb, us, gone + {v}) && WellStored(cb, next)
  {
  }

  /** Adding the produced clauses one by one gives the models of the middle state. */
  ghost predicate Producing(cb: Clauses, us: seq<Literal>, rs: set<Clause>, cc: Clauses, vs: seq<Literal>) {
    forall m: Model :: Suits(m, cc, vs) <==> Suits(m, cb, us) && Models(m, rs)
  }

  lemma ProducingNext(cb: Clauses, us: seq<Literal>, rs: set<Clause>, cc: Clauses, vs: seq<Literal>, c: Clause,
                      cd: Clauses, ws: seq<Literal>)
    requires Producing(cb, us, rs, cc, vs) && AddsSuits(cc, vs, c, cd, ws)
    ensures Producing(cb, us, rs + {c}, cd, ws)
  {
    hide Suits;
    forall m: Model ensures Models(m, rs + {c}) <==> Models(m, rs) && Satisfies(m, c) {
      if Models(m, rs + {c}) {
        assert forall x :: x in rs ==> x in rs + {c};
        assert c in rs + {c};
      }
    }
  }

  lemma MiddleRewrites(us: seq<Literal>, gone: set<nat>, es: seq<Entry>, v: nat, ps: seq<Clause>,
                       ns: seq<Clause>, cb: Clauses, rs: set<Clause>, cc: Clauses, vs: seq<Literal>)
    requires forall i :: 0 <= i < |ps| ==> Mentions(ps[i], v)
    requires forall i :: 0 <= i < |ns| ==> Mentions(ns[i], v)
    requires forall m: Model :: Suits(m, cc, vs) <==> Suits(m, cb, us) && Models(m, rs)
    ensures Rewrites(Middle(us, gone, es, v, ps, ns, cb, rs),
                     State(Formula(cc, vs), gone + {v}, es + Stored(v, ps, ns)))
  {
    hide Suits;
    var g := Formula(cb, us) + rs;
    forall m: Model ensures Models(m, g) <==> Models(m, Formula(cc, vs)) {
      FormulaModels(cb, us, m);
      FormulaModels(cc, vs, m);
      assert Models(m, g) <==> Models(m, Formula(cb, us)) && Models(m, rs) by {
        if Models(m, g) {
          assert forall x :: x in rs ==> x in g;
          assert forall x :: x in Formula(cb, us) ==> x in g;
        }
      }
    }
  }

  /** The clauses of the variable imply every produced one. */
  lemma ProducedImplied(ca: Clauses, us: seq<Literal>, v: nat, ps: seq<Clause>, ns: seq<Clause>, c: Clause, m: Model)
    requires Splits(Formula(ca, us), v, ps, ns) && ResolventOf(ps, ns, v, c) && Suits(m, ca, us)
    ensures Satisfies(m, c)
  {
    FormulaModels(ca, us, m);
    var p, q :| p in ps && q in ns && !Clash(p, q, v) && IsResolvent(p, q, v, c);
    ResolventImplied(p, q, v, c, m);
  }

  /** If the produced clauses contradict the rest, the clauses did before. */
  lemma ProducedContradiction(ca: Clauses, us: seq<Literal>, v: nat, ps: seq<Clause>, ns: seq<Clause>, cb: Clauses,
                              rs: set<Clause>)
    requires Splits(Formula(ca, us), v, ps, ns) && Others(ca, cb, v)
    requires (forall c :: c in rs ==> ResolventOf(ps, ns, v, c))
    requires forall m: Model :: !(Suits(m, cb, us) && Models(m, rs))
    ensures Unsuitable(ca, us)
  {
    forall m: Model ensures !Suits(m, ca, us) {
      if Suits(m, ca, us) {
        forall c | c in rs ensures Satisfies(m, c) {
          ProducedImplied(ca, us, v, ps, ns, c, m);
        }
        assert Models(m, rs);
        assert Suits(m, cb, us) by {
          forall cr | cr in cb ensures Satisfies(m, cb[cr]) {
            assert cr in ca && cb[cr] == ca[cr];
          }
        }
      }
    }
  }

  /** One elimination, then rewriting of its result. */
  ghost predicate EliminatedVia(s: State, u: State, v: nat) {
    exists mid, pos, neg :: Eliminates(s, mid, v, pos, neg) && WellFormed(mid) && Rewrites(mid, u)
  }

  lemma HasSign(c: Clause, v: nat)
    requires Mentions(c, v)
    ensures Literal(v, true) in c || Literal(v, false) in c
  {
    var i :| 0 <= i < |c| && c[i].variable == v;
    assert c[i] == Literal(v, true) || c[i] == Literal(v, false);
  }

  lemma OneSign(c: Clause, v: nat)
    requires Clean(c)
    ensures !(Literal(v, true) in c && Literal(v, false) in c)
  {
  }

  lemma SidesList(ca: Clauses, cls: seq<nat>, refs: seq<nat>, l: Literal)
    requires NoRepeats(refs) && forall cr :: cr in refs <==> cr in cls && Has(ca, cr, l)
    requires forall cr :: cr in cls <==> cr in ca && Mentions(ca[cr], l.variable)
    ensures ListsAll(ca, refs, l)
  {
    forall cr | Has(ca, cr, l) ensures Mentions(ca[cr], l.variable) {
      MentionsMember(ca[cr], l);
    }
  }

  /** The references are exactly those of the clauses with the literal, once each. */
  ghost predicate ListsAll(ca: Clauses, refs: seq<nat>, l: Literal) {
    NoRepeats(refs) && forall cr :: cr in refs <==> Has(ca, cr, l)
  }

  /** The pairs met before `(i, j)`. */
  ghost function PairsBefore(ca: Clauses, v: nat, pos: seq<nat>, neg: seq<nat>, i: nat, j: nat): set<(nat, nat)> {
    set a, b | 0 <= a < |pos| && 0 <= b < |neg| && (a < i || (a == i && b < j)) && Resolvable(ca, v, pos[a], neg[b]) ::
      (pos[a], neg[b])
  }

  lemma PairsNext(ca: Clauses, v: nat, pos: seq<nat>, neg: seq<nat>, i: nat, j: nat)
    requires ListsAll(ca, pos, Literal(v, true)) && ListsAll(ca, neg, Literal(v, false)) && i < |pos| && j < |neg|
    ensures pos[i] in ca && neg[j] in ca
    ensures var before, after := PairsBefore(ca, v, pos, neg, i, j), PairsBefore(ca, v, pos, neg, i, j + 1);
            if Clash(ca[pos[i]], ca[neg[j]], v) then after == before
            else after == before + {(pos[i], neg[j])} && (pos[i], neg[j]) !in before
  {
    hide Clash;
    assert pos[i] in pos && neg[j] in neg;
    assert Has(ca, pos[i], Literal(v, true)) && Has(ca, neg[j], Literal(v, false));
    var before, after := PairsBefore(ca, v, pos, neg, i, j), PairsBefore(ca, v, pos, neg, i, j + 1);
    forall pr ensures pr in after <==>
      pr in before || (!Clash(ca[pos[i]], ca[neg[j]], v) && pr == (pos[i], neg[j])) {
    }
  }

  lemma PairsRow(ca: Clauses, v: nat, pos: seq<nat>, neg: seq<nat>, i: nat)
    ensures PairsBefore(ca, v, pos, neg, i, |neg|) == PairsBefore(ca, v, pos, neg, i + 1, 0)
    ensures PairsBefore(ca, v, pos, neg, 0, 0) == {}
  {
    hide Resolvable;
  }

  lemma PairsAll(ca: Clauses, v: nat, pos: seq<nat>, neg: seq<nat>, i: nat, j: nat)
    requires ListsAll(ca, pos, Literal(v, true)) && ListsAll(ca, neg, Literal(v, false))
    ensures PairsBefore(ca, v, pos, neg, i, j) <= Pairs(ca, v)
    ensures |PairsBefore(ca, v, pos, neg, i, j)| <= |Pairs(ca, v)|
    ensures i >= |pos| ==> PairsBefore(ca, v, pos, neg, i, j) == Pairs(ca, v)
  {
    var before, all := PairsBefore(ca, v, pos, neg, i, j), Pairs(ca, v);
    forall pr | pr in before ensures pr in all {
      var a, b :| 0 <= a < |pos| && 0 <= b < |neg| && Resolvable(ca, v, pos[a], neg[b]) && pr == (pos[a], neg[b]);
    }
    SubsetSizes(before, all);
    if i >= |pos| {
      forall pr | pr in all ensures pr in before {
        var a :| 0 <= a < |pos| && pos[a] == pr.0;
        var b :| 0 <= b < |neg| && neg[b] == pr.1;
      }
    }
  }

  lemma SubsetSizes<T>(a: set<T>, b: set<T>)
    requires a <= b
    ensures |a| <= |b|
  {
    assert b == a + (b - a);
  }

  lemma OccurringSize(ca: Clauses, cls: seq<nat>, v: nat)
    requires NoRepeats(cls) && forall cr :: cr in cls <==> cr in ca && Mentions(ca[cr], v)
    ensures |cls| == |Occurring(ca, v)|
  {
    hide Mentions;
    NoRepeatsSize(cls);
    assert ElementsOf(cls) == Occurring(ca, v);
  }

  lemma PairIsCostly(ca: Clauses, v: nat, pos: seq<nat>, neg: seq<nat>, i: nat, j: nat, grow: int, clauseLim: int)
    requires ListsAll(ca, pos, Literal(v, true)) && ListsAll(ca, neg, Literal(v, false)) && i < |pos| && j < |neg|
    requires pos[i] in ca && neg[j] in ca && !Clash(ca[pos[i]], ca[neg[j]], v)
    requires |PairsBefore(ca, v, pos, neg, i, j + 1)| > |Occurring(ca, v)| + grow ||
        (clauseLim != -1 && |Joined(ca[pos[i]], ca[neg[j]], v)| > clauseLim)
    ensures Costly(ca, v, grow, clauseLim)
  {
    PairsAll(ca, v, pos, neg, i, j + 1);
    PairsNext(ca, v, pos, neg, i, j);
    hide Clash, Joined, Occurring, PairsBefore, Pairs;
    assert (pos[i], neg[j]) in Pairs(ca, v);
  }

  /** No pair before `(i, j)` has a resolvent that is too long. */
  ghost predicate AllShort(ca: Clauses, v: nat, pairs: set<(nat, nat)>, clauseLim: int) {
    clauseLim == -1 ||
    forall p, n :: (p, n) in pairs && p in ca && n in ca ==> |Joined(ca[p], ca[n], v)| <= clauseLim
  }

  lemma NothingTooLong(ca: Clauses, v: nat, clauseLim: int)
    ensures AllShort(ca, v, {}, clauseLim)
  {
  }

  lemma AllShortNext(ca: Clauses, v: nat, pairs: set<(nat, nat)>, p: nat, n: nat, clauseLim: int)
    requires AllShort(ca, v, pairs, clauseLim) && p in ca && n in ca
    requires clauseLim == -1 || |Joined(ca[p], ca[n], v)| <= clauseLim
    ensures AllShort(ca, v, pairs + {(p, n)}, clauseLim)
  {
    hide Joined;
  }

  lemma AllShortNotCostly(ca: Clauses, v: nat, grow: int, clauseLim: int)
    requires AllShort(ca, v, Pairs(ca, v), clauseLim)
    requires |Pairs(ca, v)| <= |Occurring(ca, v)| + grow || Pairs(ca, v) == {}
    ensures !Costly(ca, v, grow, clauseLim)
  {
    hide Joined, Occurring;
  }

  ghost predicate Sources(ca: Clauses, refs: seq<nat>, cs: seq<Clause>) {
    |cs| == |refs| && forall i :: 0 <= i < |refs| ==> refs[i] in ca && cs[i] == ca[refs[i]]
  }

  lemma PairMet(ca: Clauses, v: nat, pos: seq<nat>, neg: seq<nat>, ps: seq<Clause>, ns: seq<Clause>, i: nat, j: nat)
    requires ListsAll(ca, pos, Literal(v, true)) && Sources(ca, pos, ps) && i < |pos|
    requires ListsAll(ca, neg, Literal(v, false)) && Sources(ca, neg, ns) && j < |neg|
    ensures pos[i] in ca && neg[j] in ca && ps[i] == ca[pos[i]] && ns[j] == ca[neg[j]]
    ensures |PairsBefore(ca, v, pos, neg, i, j + 1)| ==
            |PairsBefore(ca, v, pos, neg, i, j)| + if Clash(ps[i], ns[j], v) then 0 else 1
    ensures !Clash(ps[i], ns[j], v) ==> (pos[i], neg[j]) in Pairs(ca, v)
  {
    hide PairsBefore, Clash, Pairs, ListsAll;
    PairsNext(ca, v, pos, neg, i, j);
    PairsAll(ca, v, pos, neg, i, j + 1);
  }

  /** Clauses added since `ca` are within the limit. */
  ghost predicate NewShort(ca: Clauses, cb: Clauses, clauseLim: int) {
    clauseLim == -1 || forall cr {:trigger cb[cr]} :: cr in cb && cr !in ca ==> |cb[cr]| <= clauseLim
  }

  /** A cheap elimination leaves at most `grow` clauses more, and no new one over the limit. */
  ghost predicate Modest(ca: Clauses, cb: Clauses, grow: int, clauseLim: int) {
    |cb| <= |ca| + (if grow > 0 then grow else 0) && NewShort(ca, cb, clauseLim)
  }

  lemma NothingNew(ca: Clauses, clauseLim: int)
    ensures NewShort(ca, ca, clauseLim)
  {
  }

  lemma {:induction false} RemainingSize(us: seq<Literal>, c: Clause)
    ensures |Remaining(us, c)| <= |c|
  {
    if c != [] {
      RemainingSize(us, c[..|c| - 1]);
    }
  }

  /** Adding a resolvent adds at most one clause, and no longer one. */
  lemma AddsAtMost(ca: Clauses, cb: Clauses, us: seq<Literal>, next: nat, q: seq<nat>, c: Clause, r: bool, cc: Clauses,
                   vs: seq<Literal>, after: nat, p: seq<nat>, clauseLim: int)
    requires Adds(cb, us, next, q, c, r, cc, vs, after, p) && NewShort(ca, cb, clauseLim) && next !in cb
    requires clauseLim == -1 || |c| <= clauseLim
    ensures |cc| <= |cb| + 1 && NewShort(ca, cc, clauseLim)
  {
    hide Remaining;
    RemainingSize(us, c);
    assert cc == cb || cc.Keys == cb.Keys + {next};
    assert |cc| == |cc.Keys| && |cb| == |cb.Keys|;
    forall cr {:trigger cc[cr]} | clauseLim != -1 && cr in cc && cr !in ca ensures |cc[cr]| <= clauseLim {
      assert cr in cb ==> cc[cr] == cb[cr];
    }
  }

  /** The resolvent of a pair that was met is within the limit. */
  lemma PairShort(ca: Clauses, v: nat, p: nat, n: nat, c: Clause, clauseLim: int)
    requires AllShort(ca, v, Pairs(ca, v), clauseLim) && (p, n) in Pairs(ca, v) && IsResolvent(ca[p], ca[n], v, c)
    ensures clauseLim == -1 || |c| <= clauseLim
  {
    hide IsResolvent, Joined;
    ResolventSize(ca[p], ca[n], v, c);
  }

  lemma NotCostlyMeans(ca: Clauses, v: nat, grow: int, clauseLim: int)
    requires !Costly(ca, v, grow, clauseLim)
    ensures AllShort(ca, v, Pairs(ca, v), clauseLim)
    ensures |Pairs(ca, v)| <= |Occurring(ca, v)| + (if grow > 0 then grow else 0)
  {
    hide Joined, Occurring, Resolvable;
  }

  lemma OthersSize(ca: Clauses, cb: Clauses, v: nat)
    requires Others(ca, cb, v)
    ensures |cb| == |ca| - |Occurring(ca, v)|
  {
    hide Mentions;
    assert ca.Keys == cb.Keys + Occurring(ca, v) && cb.Keys !! Occurring(ca, v);
    assert |cb| == |cb.Keys| && |ca| == |ca.Keys|;
  }

  lemma FewerLiterals(c: Clause, d: Clause)
    requires Clean(c) && Clean(d) && forall l :: l in c ==> l in d
    ensures |c| <= |d|
  {
    CleanSize(c);
    CleanSize(d);
    SubsetSizes(LiteralsOf(c), LiteralsOf(d));
  }

  /** Removing the clauses of the variable, adding the resolvents and reducing the rest is modest. */
  lemma SoModest(ca: Clauses, cb: Clauses, cc: Clauses, vs: seq<Literal>, cd: Clauses, ws: seq<Literal>, next: nat,
                 v: nat, grow: int, clauseLim: int)
    requires Others(ca, cb, v) && NewShort(cb, cc, clauseLim) && Smaller(cc, vs, cd, ws)
    requires WellStored(cc, next) && WellStored(cd, next)
    requires |cc| <= |cb| + |Pairs(ca, v)|
    requires |Pairs(ca, v)| <= |Occurring(ca, v)| + (if grow > 0 then grow else 0)
    ensures Modest(ca, cd, grow, clauseLim)
  {
    hide Pairs, Occurring, Mentions, Clean;
    OthersSize(ca, cb, v);
    SubsetSizes(cd.Keys, cc.Keys);
    assert |cd| == |cd.Keys| && |cc| == |cc.Keys|;
    forall cr {:trigger cd[cr]} | clauseLim != -1 && cr in cd && cr !in ca ensures |cd[cr]| <= clauseLim {
      assert cr in cc && cr !in cb;
      FewerLiterals(cd[cr], cc[cr]);
    }
  }

  lemma FlatNext(es: seq<Entry>, e: Entry)
    ensures Flat(es + [e]) == Flat(es) + Codes(e) + [|e|]
  {
    assert (es + [e])[..|es|] == es;
  }

  lemma WitnessSize(c: Clause, v: nat)
    requires Mentions(c, v)
    ensures |WitnessFirst(c, v)| == |c|
  {
  }

  lemma ProducingNone(ca: Clauses, us: seq<Literal>)
    ensures Producing(ca, us, {}, ca, us)
  {
    hide Suits;
    forall m: Model ensures Models(m, {}) {}
  }

  lemma ProducingFails(cb: Clauses, us: seq<Literal>, rs: set<Clause>, cc: Clauses, vs: seq<Literal>, c: Clause)
    requires Producing(cb, us, rs, cc, vs) && forall m: Model :: !(Suits(m, cc, vs) && Satisfies(m, c))
    ensures forall m: Model :: !(Suits(m, cb, us) && Models(m, rs + {c}))
  {
    hide Suits;
    forall m: Model ensures !(Suits(m, cb, us) && Models(m, rs + {c})) {
      if Models(m, rs + {c}) {
        assert Models(m, rs) by {
          forall x | x in rs ensures Satisfies(m, x) {
            assert x in rs + {c};
          }
        }
        assert c in rs + {c};
      }
    }
  }

  lemma CoveredAt(ps: seq<Clause>, ns: seq<Clause>, v: nat, i: nat, j: nat, rs: set<Clause>)
    requires Covered(ps, ns, v, i, j, rs)
    ensures forall c :: c in rs ==> ResolventOf(ps, ns, v, c)
  {
  }

  /** Of the eliminated variables only `v` occurs. */
  ghost predicate OnlyGone(c: Clause, gone: set<nat>, v: nat) {
    forall l :: l in c && l.variable in gone ==> l.variable == v
  }

  lemma ResolventClean(p: Clause, q: Clause, v: nat, c: Clause, gone: set<nat>)
    requires OnlyGone(p, gone, v) && OnlyGone(q, gone, v) && IsResolvent(p, q, v, c)
    ensures Clean(c)
    ensures v in gone ==> forall u :: u in gone ==> !Mentions(c, u)
  {
    if v in gone {
      forall i | 0 <= i < |c| ensures c[i].variable !in gone {
        assert c[i] in c;
      }
    }
  }

  lemma AddedCleared(ca: Clauses, us: seq<Literal>, cb: Clauses, vs: seq<Literal>, c: Clause, gone: set<nat>)
    requires Cleared(ca, us, gone) && us <= vs && forall u :: u in gone ==> !Mentions(c, u)
    requires forall cr :: cr in ca ==> cr in cb && cb[cr] == ca[cr]
    requires forall cr, v :: cr in cb && cr !in ca && Mentions(cb[cr], v) ==> Mentions(c, v)
    requires forall i :: |us| <= i < |vs| ==> vs[i] in c
    ensures Cleared(cb, vs, gone)
  {
    forall i | 0 <= i < |vs| ensures vs[i].variable !in gone {
      if i < |us| {
        assert vs[i] == us[i];
      } else {
        MentionsMember(c, vs[i]);
      }
    }
  }

  lemma SidesOnly(ca: Clauses, us: seq<Literal>, gone: set<nat>, v: nat, pos: seq<nat>, neg: seq<nat>)
    requires Cleared(ca, us, gone) && Sided(ca, pos, Literal(v, true)) && Sided(ca, neg, Literal(v, false))
    ensures forall i :: 0 <= i < |pos| ==>
        Clean(ClausesOf(ca, pos)[i]) && OnlyGone(ClausesOf(ca, pos)[i], gone + {v}, v)
    ensures forall i :: 0 <= i < |neg| ==>
        Clean(ClausesOf(ca, neg)[i]) && OnlyGone(ClausesOf(ca, neg)[i], gone + {v}, v)
  {
    forall cr | cr in ca ensures OnlyGone(ca[cr], gone + {v}, v) {
      forall l | l in ca[cr] && l.variable in gone + {v} ensures l.variable == v {
        MentionsMember(ca[cr], l);
      }
    }
  }

  lemma UnlistedEliminated(ca: Clauses, us: seq<Literal>, next: nat, gone: set<nat>, v: nat)
    requires Cleared(ca, us, gone) && v in gone
    ensures forall occurs :: AllListed(ca, occurs, next) ==> AllListed(ca, occurs[v := []], next)
  {
    forall occurs: Occurrences | AllListed(ca, occurs, next) ensures AllListed(ca, occurs[v := []], next) {
      var more := occurs[v := []];
      forall u: nat ensures Listed(ca, more, next, u) {
        assert Listed(ca, occurs, next, u);
      }
    }
  }

  lemma ProducedUnsuitable(cb: Clauses, us: seq<Literal>, rs: set<Clause>, cc: Clauses, vs: seq<Literal>)
    requires Producing(cb, us, rs, cc, vs) && Unsuitable(cc, vs)
    ensures forall m: Model :: !(Suits(m, cb, us) && Models(m, rs))
  {
    hide Suits;
  }

  lemma ProducedSame(cb: Clauses, us: seq<Literal>, rs: set<Clause>, cc: Clauses, vs: seq<Literal>, cd: Clauses,
                     ws: seq<Literal>)
    requires Producing(cb, us, rs, cc, vs) && SameSuits(cc, vs, cd, ws)
    ensures forall m: Model :: Suits(m, cd, ws) <==> Suits(m, cb, us) && Models(m, rs)
  {
    hide Suits;
  }

  /** The same with the reductions that follow. */
  lemma EliminatedBy(ca: Clauses, us: seq<Literal>, next: nat, gone: set<nat>, es: seq<Entry>, v: nat,
                     ps: seq<Clause>, ns: seq<Clause>, cb: Clauses, rs: set<Clause>, cd: Clauses, ws: seq<Literal>,
                     cc: Clauses, vs: seq<Literal>)
    requires WellStored(ca, next) && Cleared(ca, us, gone) && v !in gone && Others(ca, cb, v)
    requires Splits(Formula(ca, us), v, ps, ns) && Covered(ps, ns, v, |ps|, 0, rs)
    requires forall i :: 0 <= i < |us| ==> us[i].variable != v
    requires Producing(cb, us, rs, cd, ws) && SameSuits(cd, ws, cc, vs)
    ensures (forall i :: 0 <= i < |ps| ==> Mentions(ps[i], v)) && forall i :: 0 <= i < |ns| ==> Mentions(ns[i], v)
    ensures EliminatedVia(State(Formula(ca, us), gone, es),
                          State(Formula(cc, vs), gone + {v}, es + Stored(v, ps, ns)), v)
  {
    hide WellStored, Cleared, Others, Formula, Covered, Suits, Stored, Mentions, Splits, Producing, SameSuits,
      EliminatedVia;
    ProducedSame(cb, us, rs, cd, ws, cc, vs);
    EliminatedSo(ca, us, next, gone, es, v, ps, ns, cb, rs, cc, vs);
  }

  lemma EliminatedSo(ca: Clauses, us: seq<Literal>, next: nat, gone: set<nat>, es: seq<Entry>, v: nat,
                     ps: seq<Clause>, ns: seq<Clause>, cb: Clauses, rs: set<Clause>, cc: Clauses, vs: seq<Literal>)
    requires WellStored(ca, next) && Cleared(ca, us, gone) && v !in gone && Others(ca, cb, v)
    requires Splits(Formula(ca, us), v, ps, ns) && Covered(ps, ns, v, |ps|, 0, rs)
    requires forall i :: 0 <= i < |us| ==> us[i].variable != v
    requires forall m: Model :: Suits(m, cc, vs) <==> Suits(m, cb, us) && Models(m, rs)
    ensures (forall i :: 0 <= i < |ps| ==> Mentions(ps[i], v)) && forall i :: 0 <= i < |ns| ==> Mentions(ns[i], v)
    ensures EliminatedVia(State(Formula(ca, us), gone, es),
                          State(Formula(cc, vs), gone + {v}, es + Stored(v, ps, ns)), v)
  {
    hide WellStored, Cleared, Others, Formula, Covered, Suits, Stored, Mentions, Rewrites, Eliminates, WellFormed,
      Middle;
    MiddleEliminates(ca, us, gone, es, v, ps, ns, cb, rs);
    MiddleWellFormed(ca, us, next, gone, es, v, ps, ns, cb, rs);
    MiddleRewrites(us, gone, es, v, ps, ns, cb, rs, cc, vs);
    ViaMiddle(State(Formula(ca, us), gone, es), Middle(us, gone, es, v, ps, ns, cb, rs),
              State(Formula(cc, vs), gone + {v}, es + Stored(v, ps, ns)), v, ps, ns);
  }

  /** An elimination by the method continues any run, so its models can be walked back. */
  lemma ViaContinuesRun(ss: seq<State>, u: State, v: nat) returns (ts: seq<State>)
    requires Run(ss) && WellFormed(ss[|ss| - 1]) && WellFormed(u) && EliminatedVia(ss[|ss| - 1], u, v)
    ensures Run(ts) && ts[0] == ss[0] && ts[|ts| - 1] == u
  {
    var s := ss[|ss| - 1];
    var mid, pos, neg :| Eliminates(s, mid, v, pos, neg) && WellFormed(mid) && Rewrites(mid, u);
    ts := ss + [mid, u];
    hide Eliminates, Rewrites, WellFormed;
    forall i | 0 <= i < |ts| - 1 ensures Step(ts[i], ts[i + 1]) {
      if i < |ss| - 1 {
        assert Step(ss[i], ss[i + 1]);
        assert ts[i] == ss[i] && ts[i + 1] == ss[i + 1];
      } else if i == |ss| - 1 {
        assert ts[i] == s && ts[i + 1] == mid;
      } else {
        assert ts[i] == mid && ts[i + 1] == u;
      }
    }
  }

  lemma ViaMiddle(s: State, mid: State, u: State, v: nat, ps: seq<Clause>, ns: seq<Clause>)
    requires Eliminates(s, mid, v, ps, ns) && WellFormed(mid) && Rewrites(mid, u)
    ensures EliminatedVia(s, u, v)
  {
  }

  class Simplifier {
    var ca: Clauses
    var occurs: Occurrences
    var units: seq<Literal>
    var next: nat
    var queue: seq<nat>
    var bwdsubAssigns: nat
    var eliminated: set<nat>
    var elimclauses: seq<nat>

    constructor ()
      ensures Valid() && ca == map[] && units == [] && eliminated == {} && elimclauses == []
    {
      ca, occurs, units, next, queue := map[], map[], [], 0, [];
      bwdsubAssigns, eliminated, elimclauses := 0, {}, [];
      new;
      NothingListed();
    }

    /** Every clause is on the occurrence list of each of its variables. */
    ghost predicate Valid()
      reads this
    {
      WellStored(ca, next) && AllListed(ca, occurs, next) && bwdsubAssigns <= |units|
    }

    /** The list without removed clauses. */
    method Lookup(v: nat) returns (list: seq<nat>)
      requires Valid()
      modifies this`occurs
      ensures Valid() && list == OccList(occurs, v) && NoRepeats(list)
      ensures forall cr :: cr in list <==> cr in ca && Mentions(ca[cr], v)
      ensures (forall u :: u != v ==> OccList(occurs, u) == old(OccList(occurs, u))) && Narrows(old(occurs), occurs)
    {
      hide WellStored, Mentions;
      var all := OccList(occurs, v);
      assert Listed(ca, occurs, next, v);
      list := [];
      var i := 0;
      while i < |all|
        invariant i <= |all| && NoRepeats(list) && forall cr :: cr in list <==> cr in all[..i] && cr in ca
      {
        assert all[..i + 1] == all[..i] + [all[i]];
        assert all[i] !in all[..i];
        if all[i] in ca {
          list := list + [all[i]];
        }
        i := i + 1;
      }
      assert all[..i] == all;
      LookedUpListed(ca, occurs, next, v, list);
      occurs := occurs[v := list];
    }

    /** The occurrence lists are cleaned when they are next looked up. */
    method RemoveClause(cr: nat)
      requires Valid() && cr in ca
      modifies this`ca
      ensures Valid() && ca == old(ca) - {cr} && Size(ca) < Size(old(ca))
    {
      RemovedListed(ca, occurs, next, cr);
      SizeRemoved(ca, cr);
      ca := ca - {cr};
    }

    /** Drops true clauses and false literals; a unit is assigned, a longer clause stored and listed. */
    method AddClause(ps: Clause) returns (r: bool)
      requires Valid() && Clean(ps)
      modifies this`ca, this`occurs, this`units, this`next, this`queue
      ensures Valid()
      ensures r ==> AddsSuits(old(ca), old(units), ps, ca, units)
      ensures r ==> forall cr :: cr in old(ca) ==> cr in ca && ca[cr] == old(ca)[cr]
      ensures r ==> forall cr, v :: cr in ca && cr !in old(ca) && Mentions(ca[cr], v) ==> Mentions(ps, v)
      ensures r ==> old(units) <= units && forall i :: |old(units)| <= i < |units| ==> units[i] in ps
      ensures !r ==> forall m: Model :: !(Suits(m, old(ca), old(units)) && Satisfies(m, ps))
      ensures Adds(old(ca), old(units), old(next), old(queue), ps, r, ca, units, next, queue)
    {
      hide WellStored, AllListed, Left, AddsSuits, Suits, PushedTo, Remaining;
      var out: Clause := [];
      var i := 0;
      LeftNone(units, ps);
      RemainingNone(units, ps);
      while i < |ps|
        invariant i <= |ps| && Left(units, ps, i, out) && unchanged(this)
        invariant out == Remaining(units, ps[..i]) && forall k :: 0 <= k < i ==> ps[k] !in units
      {
        RemainingNext(units, ps, i);
        if ps[i] in units {
          TrueAlready(ca, units, ps, ps[i]);
          return true;
        }
        LeftNext(units, ps, i, out);
        if ps[i].Negated() !in units {
          out := out + [ps[i]];
        }
        i := i + 1;
      }
      assert ps[..i] == ps;
      if |out| == 0 {
        EmptyLeft(ca, units, ps);
        return false;
      }
      LeftIn(units, ps, out);
      if |out| == 1 {
        UnitLeft(ca, units, ps, out);
        assert [out[0]] == out;
        units := units + [out[0]];
        return true;
      }
      NotStored(ca, next);
      MoreLeft(ca, units, ps, out, next);
      PushedNone(occurs, out, next);
      i := 0;
      while i < |out|
        invariant i <= |out| && PushedTo(old(occurs), occurs, out, i, next)
        invariant unchanged(this`ca, this`units, this`next, this`queue, this`bwdsubAssigns)
      {
        PushedNext(old(occurs), occurs, out, i, next);
        occurs := occurs[out[i].variable := OccList(occurs, out[i].variable) + [next]];
        i := i + 1;
      }
      AddedListed(ca, old(occurs), occurs, next, out);
      ca := ca[next := out];
      queue := queue + [next];
      next := next + 1;
      r := true;
    }

    /** Takes a literal off a clause; a clause of two becomes an assignment.  No on a contradiction. */
    method StrengthenClause(cr: nat, l: Literal) returns (r: bool)
      requires Valid() && cr in ca && l in ca[cr]
      requires forall m: Model :: Suits(m, ca - {cr}, units) ==>
          (Satisfies(m, ca[cr]) <==> Satisfies(m, Removed(ca[cr], l)))
      modifies this`ca, this`occurs, this`units, this`queue
      ensures Valid() && Size(ca) < Size(old(ca)) && next == old(next)
      ensures r ==> SameSuits(old(ca), old(units), ca, units)
      ensures !r ==> Unsuitable(old(ca), old(units))
      ensures old(units) <= units && ca.Keys <= old(ca.Keys) && old(ca.Keys) - {cr} <= ca.Keys
      ensures forall x :: x in ca && x != cr ==> ca[x] == old(ca)[x]
      ensures forall v :: v != l.variable ==> OccList(occurs, v) == old(OccList(occurs, v))
      ensures OccList(occurs, l.variable) == if |old(ca)[cr]| > 2 then WithoutRef(old(OccList(occurs, l.variable)), cr)
                                             else old(OccList(occurs, l.variable))
      ensures Narrows(old(occurs), occurs)
      ensures forall x :: x in ca ==> forall k :: k in ca[x] ==> k in old(ca)[x]
      ensures forall i :: |old(units)| <= i < |units| ==> units[i] in old(ca)[cr]
      ensures queue == old(queue) + [cr]
      ensures if |old(ca)[cr]| > 2 then r && units == old(units) && ca == old(ca)[cr := Removed(old(ca)[cr], l)]
              else ca == old(ca) - {cr} && Enqueues(old(units), Removed(old(ca)[cr], l), r, units)
    {
      hide WellStored, AllListed, Suits, SameSuits, Unsuitable;
      queue := queue + [cr];
      StoredAt(ca, next, cr);
      RemovedIs(ca[cr], l);
      StrengthenedSuits(ca, units, cr, Removed(ca[cr], l));
      SizeStrengthened(ca, cr, l);
      var c := Removed(ca[cr], l);
      if |ca[cr]| == 2 {
        ghost var was := ca;
        RemoveClause(cr);
        r := Enqueue(c[0]);
        UnitStrengthened(was, old(units), cr, c, units, r);
      } else {
        StrengthenedListed(ca, occurs, next, cr, l);
        ca := ca[cr := c];
        occurs := occurs[l.variable := WithoutRef(OccList(occurs, l.variable), cr)];
        r := true;
      }
      NarrowsWithout(old(occurs), occurs, l.variable, cr);
    }

    /** Assigns a literal unless it has a value already. */
    method Enqueue(p: Literal) returns (r: bool)
      requires Valid()
      modifies this`units
      ensures Valid() && r == (p.Negated() !in old(units) || p in old(units))
      ensures units == if p in old(units) || p.Negated() in old(units) then old(units) else old(units) + [p]
    {
      if p in units {
        r := true;
      } else if p.Negated() in units {
        r := false;
      } else {
        units := units + [p];
        r := true;
      }
    }

    /** Uses one clause, stored or made of a level-0 literal, against another. */
    method UseOn(d: nat, c: Clause, self: Option, abstraction: bv32) returns (r: bool, outcome: Outcome)
      requires Valid() && Clean(c) && Present(ca, units, c, self) && abstraction == Abstraction(c) && d in ca
      requires self != Some(d)
      modifies this`ca, this`occurs, this`units, this`queue
      ensures Valid() && next == old(next) && Present(ca, units, c, self)
      ensures r ==> SameSuits(old(ca), old(units), ca, units)
      ensures !r ==> Unsuitable(old(ca), old(units))
      ensures outcome == Subsumed <==> Contains(c, old(ca)[d])
      ensures forall p :: outcome == Strengthens(p) <==> ContainsBut(c, old(ca)[d], p)
      ensures if outcome == Unrelated then ca == old(ca) && units == old(units) && queue == old(queue) &&
          occurs == old(occurs)
              else Size(ca) < Size(old(ca))
      ensures Smaller(old(ca), old(units), ca, units) && Narrows(old(occurs), occurs)
      ensures forall v :: (forall p :: outcome == Strengthens(p) ==> v != p.variable) ==>
          OccList(occurs, v) == old(OccList(occurs, v))
      ensures forall p :: outcome == Strengthens(p) ==>
          OccList(occurs, p.variable) == if |old(ca)[d]| > 2 then WithoutRef(old(OccList(occurs, p.variable)), d)
                                         else old(OccList(occurs, p.variable))
      ensures Uses(old(ca), old(units), old(queue), d, outcome, r, ca, units, queue)
    {
      hide WellStored, AllListed, Suits, SameSuits, Unsuitable, Clean, Mentions, Smaller, Size, Contains,
        ContainsBut, Abstraction;
      StoredAt(ca, next, d);
      SuitsSelf(ca, units);
      SmallerSelf(ca, units);
      ghost var cb, us := ca, units;
      var abstractionD := CalcAbstraction(ca[d]);
      outcome := Subsumes(c, ca[d], abstraction, abstractionD);
      r := true;
      if outcome == Subsumed {
        SubsumedSuits(ca, units, c, self, d);
        RemoveClause(d);
        SmallerRemoved(cb, us, cb, us, d);
      } else if outcome.Strengthens? {
        var p := outcome.p;
        HasNegation(c, ca[d], p);
        StrengthenSuits(ca, units, c, self, d, p);
        r := StrengthenClause(d, p.Negated());
        SmallerStrengthened(cb, us, cb, us, ca, units, d);
        StillPresent(cb, us, c, self, ca, units, d);
      }
    }

    /** Uses the clause on all clauses of its least occurring variable. */
    method CheckWith(c: Clause, self: Option, subsumptionLim: int) returns (r: bool)
      requires Valid() && Clean(c) && c != [] && Present(ca, units, c, self)
      modifies this`ca, this`occurs, this`units, this`queue
      ensures Valid() && next == old(next) && bwdsubAssigns == old(bwdsubAssigns)
      ensures r ==> SameSuits(old(ca), old(units), ca, units)
      ensures !r ==> Unsuitable(old(ca), old(units))
      ensures Reduces(old(ca), old(units), old(queue), old(occurs), ca, units, queue, occurs, subsumptionLim)
      ensures self.Some? ==> Present(ca, units, c, self)
      ensures r ==> Spent(ca, c, self, subsumptionLim)
    {
      hide WellStored, AllListed, Suits, SameSuits, Unsuitable, Clean, Mentions, Smaller, Size, Contains,
        ContainsBut, Abstraction, Spent, Shrinks, Ahead, Relates, Uses, WithoutRef, Reduces, Narrows;
      var best := LeastOccurring(c);
      var cs := Lookup(best);
      SuitsSelf(ca, units);
      ReducesSelf(ca, units, queue, old(occurs), occurs, subsumptionLim);
      AheadBegins(ca, c, self, subsumptionLim, cs, best);
      var abstraction := CalcAbstraction(c);
      var j := 0;
      assert cs[j..] == cs;
      while j < |OccList(occurs, best)| && (self.Some? ==> self.cref in ca)
        invariant Valid() && Present(ca, units, c, self) && next == old(next) && bwdsubAssigns == old(bwdsubAssigns)
        invariant SameSuits(old(ca), old(units), ca, units)
        invariant Reduces(old(ca), old(units), old(queue), old(occurs), ca, units, queue, occurs, subsumptionLim)
        invariant j <= |OccList(occurs, best)| && NoRepeats(OccList(occurs, best))
        invariant Ahead(ca, c, self, subsumptionLim, OccList(occurs, best)[j..])
        decreases Size(ca), |OccList(occurs, best)| - j
      {
        ghost var cb, us, q, oc, list := ca, units, queue, occurs, OccList(occurs, best);
        var d := OccList(occurs, best)[j];
        assert list[j..] == [d] + list[j + 1..];
        ShrinksSelf(ca, queue, subsumptionLim);
        if d in ca && self != Some(d) && (subsumptionLim == -1 || |ca[d]| < subsumptionLim) {
          var outcome;
          StoredAt(ca, next, d);
          r, outcome := UseOn(d, c, self, abstraction);
          UsesShrinks(cb, us, q, c, d, outcome, r, ca, units, queue, subsumptionLim);
          ReducesNext(old(ca), old(units), old(queue), old(occurs), cb, us, q, oc, ca, units, queue, occurs,
                      subsumptionLim);
          SuitsTrans(old(ca), old(units), cb, us, ca, units);
          if !r {
            return;
          }
          AheadNext(cb, q, ca, queue, c, self, subsumptionLim, list[j..], list[j + 1..], d);
          if outcome.Strengthens? && outcome.p.variable == best {
            StillAhead(list, j, OccList(occurs, best), ca, c, self, subsumptionLim);
            continue;
          }
        } else {
          AheadNext(cb, q, ca, queue, c, self, subsumptionLim, list[j..], list[j + 1..], d);
        }
        j := j + 1;
      }
      AheadEnds(ca, c, self, subsumptionLim, OccList(occurs, best)[j..]);
      r := true;
    }

    /** The variable with the shortest occurrence list. */
    method LeastOccurring(c: Clause) returns (best: nat)
      requires c != []
      ensures Mentions(c, best)
      ensures forall l :: l in c ==> |OccList(occurs, best)| <= |OccList(occurs, l.variable)|
    {
      best := c[0].variable;
      var i := 1;
      while i < |c|
        invariant 1 <= i <= |c| && Mentions(c, best)
        invariant forall k :: 0 <= k < i ==> |OccList(occurs, best)| <= |OccList(occurs, c[k].variable)|
      {
        if |OccList(occurs, c[i].variable)| < |OccList(occurs, best)| {
          best := c[i].variable;
        }
        i := i + 1;
      }
    }

    /** Works off the queue and the new level-0 literals.  `interrupts` says what each look at the flag
        for an interruption finds. */
    method BackwardSubsumptionCheck(subsumptionLim: int, interrupts: nat -> bool) returns (r: bool, asked: nat)
      requires Valid()
      modifies this`ca, this`occurs, this`units, this`queue, this`bwdsubAssigns
      ensures Valid() && next == old(next)
      ensures r ==> SameSuits(old(ca), old(units), ca, units) && queue == [] && bwdsubAssigns == |units|
      ensures !r ==> Unsuitable(old(ca), old(units))
      ensures Smaller(old(ca), old(units), ca, units) && Narrows(old(occurs), occurs)
      ensures forall k :: 0 < k < asked ==> !interrupts(k)
      ensures r && (asked > 0 ==> !interrupts(asked)) ==>
                WorkedOff(old(ca), old(queue), old(bwdsubAssigns), ca, units, [], |units|, subsumptionLim) &&
                asked >= |old(queue)| + |units| - old(bwdsubAssigns)
    {
      hide WellStored, AllListed, Suits, SameSuits, Unsuitable, Clean, Mentions, Smaller, Size, Spent, Shrinks,
        WorkedOff, Reduces, Narrows;
      SuitsSelf(ca, units);
      SmallerSelf(ca, units);
      NarrowsSelf(occurs);
      WorkBegins(ca, queue, bwdsubAssigns, units, subsumptionLim);
      asked := 0;
      while |queue| > 0 || bwdsubAssigns < |units|
        invariant Valid() && next == old(next)
        invariant SameSuits(old(ca), old(units), ca, units) && Smaller(old(ca), old(units), ca, units)
        invariant Narrows(old(occurs), occurs)
        invariant WorkedOff(old(ca), old(queue), old(bwdsubAssigns), ca, units, queue, bwdsubAssigns, subsumptionLim)
        invariant forall k :: 0 < k <= asked ==> !interrupts(k)
        invariant asked + |queue| + old(bwdsubAssigns) >= |old(queue)| + bwdsubAssigns
        decreases Size(ca), |units| - bwdsubAssigns, |queue|
      {
        asked := asked + 1;
        if interrupts(asked) {
          queue := [];
          bwdsubAssigns := |units|;
          break;
        }
        ghost var cb, us, q, oc, b := ca, units, queue, occurs, bwdsubAssigns;
        var c: Clause, self;
        if |queue| == 0 {
          c, self := [units[bwdsubAssigns]], None;
          UnitClean(units[bwdsubAssigns]);
          bwdsubAssigns := bwdsubAssigns + 1;
        } else {
          var cr := queue[0];
          queue := queue[1..];
          if cr !in ca {
            WorkSkip(old(ca), old(queue), old(bwdsubAssigns), ca, units, q, bwdsubAssigns, subsumptionLim);
            continue;
          }
          StoredAt(ca, next, cr);
          c, self := ca[cr], Some(cr);
        }
        ghost var p := queue;
        r := CheckWith(c, self, subsumptionLim);
        ReducesMeans(cb, us, p, oc, ca, units, queue, occurs, subsumptionLim);
        NarrowsTrans(old(occurs), oc, occurs);
        SuitsTrans(old(ca), old(units), cb, us, ca, units);
        SmallerTrans(old(ca), old(units), cb, us, ca, units);
        if !r {
          return;
        }
        SmallerKeeps(cb, us, ca, units);
        ShrinksQueue(cb, p, ca, queue, subsumptionLim);
        WorkNext(old(ca), old(queue), old(bwdsubAssigns), cb, us, q, b, c, self, p, ca, units, queue, bwdsubAssigns,
                 subsumptionLim);
      }
      r := true;
    }

    /** The clauses of a variable by the sign of its literal. */
    method Sides(cls: seq<nat>, v: nat) returns (pos: seq<nat>, neg: seq<nat>)
      requires Valid() && forall i :: 0 <= i < |cls| ==> cls[i] in ca && Mentions(ca[cls[i]], v)
      requires NoRepeats(cls)
      ensures Sided(ca, pos, Literal(v, true)) && Sided(ca, neg, Literal(v, false))
      ensures NoRepeats(pos) && forall cr :: cr in pos <==> cr in cls && Has(ca, cr, Literal(v, true))
      ensures NoRepeats(neg) && forall cr :: cr in neg <==> cr in cls && Has(ca, cr, Literal(v, false))
      ensures forall cr :: cr in cls ==> cr in pos || cr in neg
    {
      hide AllListed, Mentions, Clean;
      pos, neg := [], [];
      var i := 0;
      while i < |cls|
        invariant i <= |cls| && Sided(ca, pos, Literal(v, true)) && Sided(ca, neg, Literal(v, false))
        invariant NoRepeats(pos) && forall cr :: cr in pos <==> cr in cls[..i] && Has(ca, cr, Literal(v, true))
        invariant NoRepeats(neg) && forall cr :: cr in neg <==> cr in cls[..i] && Has(ca, cr, Literal(v, false))
      {
        StoredAt(ca, next, cls[i]);
        HasSign(ca[cls[i]], v);
        OneSign(ca[cls[i]], v);
        assert cls[..i + 1] == cls[..i] + [cls[i]] && cls[i] !in cls[..i];
        if Literal(v, true) in ca[cls[i]] {
          pos := pos + [cls[i]];
        } else {
          neg := neg + [cls[i]];
        }
        i := i + 1;
      }
      assert cls[..i] == cls;
      forall cr | cr in cls ensures cr in pos || cr in neg {
        HasSign(ca[cr], v);
      }
    }

    /** Whether there would be too many resolvents, or too long ones. */
    method TooCostly(pos: seq<nat>, neg: seq<nat>, v: nat, occurrences: nat, grow: int, clauseLim: int)
      returns (costly: bool)
      requires Sided(ca, pos, Literal(v, true)) && Sided(ca, neg, Literal(v, false))
      requires ListsAll(ca, pos, Literal(v, true)) && ListsAll(ca, neg, Literal(v, false))
      requires occurrences == |Occurring(ca, v)|
      ensures costly <==> Costly(ca, v, grow, clauseLim)
    {
      hide Clean, Mentions, Clash, Joined, Occurring, PairsBefore, Pairs, Costly, AllShort, ListsAll;
      var cnt := 0;
      var i := 0;
      PairsRow(ca, v, pos, neg, 0);
      NothingTooLong(ca, v, clauseLim);
      while i < |pos|
        invariant i <= |pos| && cnt == |PairsBefore(ca, v, pos, neg, i, 0)|
        invariant cnt <= occurrences + grow || cnt == 0
        invariant AllShort(ca, v, PairsBefore(ca, v, pos, neg, i, 0), clauseLim)
      {
        var j := 0;
        while j < |neg|
          invariant j <= |neg| && cnt == |PairsBefore(ca, v, pos, neg, i, j)|
          invariant cnt <= occurrences + grow || cnt == 0
          invariant AllShort(ca, v, PairsBefore(ca, v, pos, neg, i, j), clauseLim)
        {
          var ok, size := MergeSize(ca[pos[i]], ca[neg[j]], v);
          PairsNext(ca, v, pos, neg, i, j);
          if ok {
            cnt := cnt + 1;
            if cnt > occurrences + grow || (clauseLim != -1 && size > clauseLim) {
              PairIsCostly(ca, v, pos, neg, i, j, grow, clauseLim);
              return true;
            }
            AllShortNext(ca, v, PairsBefore(ca, v, pos, neg, i, j), pos[i], neg[j], clauseLim);
          }
          j := j + 1;
        }
        PairsRow(ca, v, pos, neg, i);
        i := i + 1;
      }
      PairsAll(ca, v, pos, neg, i, 0);
      AllShortNotCostly(ca, v, grow, clauseLim);
      costly := false;
    }

    /** Stores the clauses of one side, the literal over `v` first. */
    method StoreSide(refs: seq<nat>, v: nat, w: Literal, ghost es: seq<Entry>)
      requires Sided(ca, refs, w) && w.variable == v && elimclauses == Flat(es)
      modifies this`elimclauses
      ensures forall i :: 0 <= i < |refs| ==> Mentions(ClausesOf(ca, refs)[i], v)
      ensures elimclauses == Flat(es + Witnesses(ClausesOf(ca, refs), v))
    {
      hide Flat, Clean, Mentions, WitnessFirst;
      ghost var cs := ClausesOf(ca, refs);
      ghost var done: seq<Entry> := [];
      var i := 0;
      assert es + done == es && cs[..0] == [];
      while i < |refs|
        invariant i <= |refs| && done == Witnesses(cs[..i], v) && elimclauses == Flat(es + done)
      {
        elimclauses := MkElimClause(elimclauses, v, ca[refs[i]]);
        FlatNext(es + done, WitnessFirst(cs[i], v));
        WitnessSize(cs[i], v);
        assert cs[..i + 1][..i] == cs[..i];
        assert es + done + [WitnessFirst(cs[i], v)] == es + (done + [WitnessFirst(cs[i], v)]);
        done := done + [WitnessFirst(cs[i], v)];
        i := i + 1;
      }
      assert cs[..i] == cs;
    }

    /** Stores the smaller side and the opposite literal. */
    method StoreEntries(pos: seq<nat>, neg: seq<nat>, v: nat, ghost es: seq<Entry>)
      requires Sided(ca, pos, Literal(v, true)) && Sided(ca, neg, Literal(v, false)) && elimclauses == Flat(es)
      modifies this`elimclauses
      ensures forall i :: 0 <= i < |pos| ==> Mentions(ClausesOf(ca, pos)[i], v)
      ensures forall i :: 0 <= i < |neg| ==> Mentions(ClausesOf(ca, neg)[i], v)
      ensures elimclauses == Flat(es + Stored(v, ClausesOf(ca, pos), ClausesOf(ca, neg)))
    {
      hide Flat, Clean, Mentions, Witnesses;
      if |pos| > |neg| {
        StoreSide(neg, v, Literal(v, false), es);
        ghost var ws := Witnesses(ClausesOf(ca, neg), v);
        FlatNext(es + ws, [Literal(v, true)]);
        assert es + ws + [[Literal(v, true)]] == es + (ws + [[Literal(v, true)]]);
        elimclauses := MkElimUnit(elimclauses, Literal(v, true));
      } else {
        StoreSide(pos, v, Literal(v, true), es);
        ghost var ws := Witnesses(ClausesOf(ca, pos), v);
        FlatNext(es + ws, [Literal(v, false)]);
        assert es + ws + [[Literal(v, false)]] == es + (ws + [[Literal(v, false)]]);
        elimclauses := MkElimUnit(elimclauses, Literal(v, false));
      }
    }

    method RemoveAll(cls: seq<nat>, v: nat)
      requires Valid() && NoRepeats(cls) && forall cr :: cr in cls <==> cr in ca && Mentions(ca[cr], v)
      modifies this`ca
      ensures Valid() && Others(old(ca), ca, v)
    {
      hide WellStored, AllListed, Mentions;
      var i := 0;
      while i < |cls|
        invariant i <= |cls| && Valid()
        invariant forall cr :: cr in ca <==> cr in old(ca) && cr !in cls[..i]
        invariant forall cr :: cr in ca ==> ca[cr] == old(ca)[cr]
      {
        assert cls[..i + 1] == cls[..i] + [cls[i]];
        assert cls[i] in cls && cls[i] !in cls[..i];
        RemoveClause(cls[i]);
        i := i + 1;
      }
      assert cls[..i] == cls;
    }

    /** Adds all resolvents. */
    method CrossProduct(ps: seq<Clause>, ns: seq<Clause>, v: nat, ghost gone: set<nat>, ghost was: Clauses,
                        ghost pos: seq<nat>, ghost neg: seq<nat>, ghost clauseLim: int)
      returns (r: bool, ghost rs: set<Clause>)
      requires Valid() && Cleared(ca, units, gone) && v in gone
      requires forall i :: 0 <= i < |ps| ==> Clean(ps[i]) && OnlyGone(ps[i], gone, v)
      requires forall i :: 0 <= i < |ns| ==> Clean(ns[i]) && OnlyGone(ns[i], gone, v)
      requires ListsAll(was, pos, Literal(v, true)) && Sources(was, pos, ps)
      requires ListsAll(was, neg, Literal(v, false)) && Sources(was, neg, ns)
      requires AllShort(was, v, Pairs(was, v), clauseLim)
      modifies this`ca, this`occurs, this`units, this`next, this`queue
      ensures Valid() && forall c :: c in rs ==> ResolventOf(ps, ns, v, c)
      ensures r ==> Cleared(ca, units, gone) && Covered(ps, ns, v, |ps|, 0, rs) &&
                    Producing(old(ca), old(units), rs, ca, units)
      ensures !r ==> forall m: Model :: !(Suits(m, old(ca), old(units)) && Models(m, rs))
      ensures Queues(old(ca), old(units), old(queue), ca, units, queue)
      ensures |ca| <= |old(ca)| + |Pairs(was, v)| && NewShort(old(ca), ca, clauseLim)
    {
      hide WellStored, AllListed, Clean, Clash, IsResolvent, Suits, Producing, AddsSuits, Covered, Cleared, OnlyGone,
        Queues, Adds, Pairs, PairsBefore, ListsAll, AllShort, NewShort;
      rs := {};
      CoveredNone(ps, ns, v);
      ProducingNone(ca, units);
      QueuesSelf(ca, units, queue);
      NothingNew(ca, clauseLim);
      PairsRow(was, v, pos, neg, 0);
      var i := 0;
      while i < |ps|
        invariant i <= |ps| && Valid() && Cleared(ca, units, gone)
        invariant Covered(ps, ns, v, i, 0, rs) && Producing(old(ca), old(units), rs, ca, units)
        invariant Queues(old(ca), old(units), old(queue), ca, units, queue)
        invariant |ca| <= |old(ca)| + |PairsBefore(was, v, pos, neg, i, 0)| && NewShort(old(ca), ca, clauseLim)
      {
        var j := 0;
        while j < |ns|
          invariant j <= |ns| && Valid() && Cleared(ca, units, gone)
          invariant Covered(ps, ns, v, i, j, rs) && Producing(old(ca), old(units), rs, ca, units)
          invariant Queues(old(ca), old(units), old(queue), ca, units, queue)
          invariant |ca| <= |old(ca)| + |PairsBefore(was, v, pos, neg, i, j)| && NewShort(old(ca), ca, clauseLim)
        {
          var ok, resolvent := Merge(ps[i], ns[j], v);
          CoveredNext(ps, ns, v, i, j, rs, resolvent);
          PairMet(was, v, pos, neg, ps, ns, i, j);
          PairsAll(was, v, pos, neg, i, j + 1);
          if ok {
            ghost var cb, us, q, n := ca, units, queue, next;
            ResolventClean(ps[i], ns[j], v, resolvent, gone);
            FreshNext(ca, next);
            r := AddClause(resolvent);
            QueuesNext(old(ca), old(units), old(queue), cb, us, n, q, resolvent, r, ca, units, next, queue);
            PairShort(was, v, pos[i], neg[j], resolvent, clauseLim);
            AddsAtMost(old(ca), cb, us, n, q, resolvent, r, ca, units, next, queue, clauseLim);
            if !r {
              ProducingFails(old(ca), old(units), rs, cb, us, resolvent);
              rs := rs + {resolvent};
              CoveredAt(ps, ns, v, i, j + 1, rs);
              return;
            }
            ProducingNext(old(ca), old(units), rs, cb, us, resolvent, ca, units);
            AddedCleared(cb, us, ca, units, resolvent, gone);
            rs := rs + {resolvent};
          }
          j := j + 1;
        }
        CoveredRow(ps, ns, v, i, rs);
        PairsRow(was, v, pos, neg, i);
        i := i + 1;
      }
      CoveredAt(ps, ns, v, i, 0, rs);
      PairsAll(was, v, pos, neg, i, 0);
      r := true;
    }

    /** The clauses of a variable, split by sign, and whether eliminating it costs too much. */
    method Weigh(v: nat, grow: int, clauseLim: int)
      returns (cls: seq<nat>, pos: seq<nat>, neg: seq<nat>, costly: bool)
      requires Valid()
      modifies this`occurs
      ensures Valid() && NoRepeats(cls) && forall cr :: cr in cls <==> cr in ca && Mentions(ca[cr], v)
      ensures Sided(ca, pos, Literal(v, true)) && ListsAll(ca, pos, Literal(v, true))
      ensures Sided(ca, neg, Literal(v, false)) && ListsAll(ca, neg, Literal(v, false))
      ensures forall cr :: cr in cls ==> cr in pos || cr in neg
      ensures costly <==> Costly(ca, v, grow, clauseLim)
    {
      hide Costly, ListsAll, Occurring, Has, Narrows, WellStored, AllListed, Clean, Mentions;
      cls := Lookup(v);
      pos, neg := Sides(cls, v);
      SidesList(ca, cls, pos, Literal(v, true));
      SidesList(ca, cls, neg, Literal(v, false));
      OccurringSize(ca, cls, v);
      costly := TooCostly(pos, neg, v, |cls|, grow, clauseLim);
    }

    /** Replaces the clauses of a variable by their resolvents, unless that costs too much.  The new
        state comes from the old one by one elimination and rewriting. */
    method EliminateVar(v: nat, grow: int, clauseLim: int, subsumptionLim: int, interrupts: nat -> bool,
                        ghost es: seq<Entry>)
      returns (r: bool, ghost fs: seq<Entry>)
      requires Valid() && v !in eliminated && Cleared(ca, units, eliminated) && elimclauses == Flat(es)
      requires forall i :: 0 <= i < |units| ==> units[i].variable != v
      modifies this
      ensures Valid() && elimclauses == Flat(fs) && (r ==> Cleared(ca, units, eliminated))
      ensures r && v !in eliminated ==>
          ca == old(ca) && units == old(units) && eliminated == old(eliminated) && fs == es
      ensures r && v in eliminated ==>
                EliminatedVia(State(Formula(old(ca), old(units)), old(eliminated), es),
                              State(Formula(ca, units), eliminated, fs), v)
      ensures !r ==> Unsuitable(old(ca), old(units))
      ensures v in eliminated <==> !Costly(old(ca), v, grow, clauseLim)
      ensures Costly(old(ca), v, grow, clauseLim) ==> r && elimclauses == old(elimclauses)
      ensures r && v in eliminated ==> OccList(occurs, v) == [] && queue == [] && bwdsubAssigns == |units|
      ensures r && v in eliminated && (forall k :: !interrupts(k)) ==>
                Finished(old(ca), old(queue), old(bwdsubAssigns), ca, units, subsumptionLim)
      ensures r && v in eliminated ==> Modest(old(ca), ca, grow, clauseLim)
    {
      hide Costly, ListsAll, Occurring, Has, Narrows, WorkedOff, Finished, Queues, NewShort, Modest, Pairs, AllShort;
      hide WellStored, AllListed, Clean, Mentions, Suits, Producing, Covered, Cleared, Formula, Splits, Others,
        Stored, Unsuitable, EliminatedVia, Flat, SameSuits, Smaller;
      var cls, pos, neg, costly := Weigh(v, grow, clauseLim);
      var ps, ns := ClausesOf(ca, pos), ClausesOf(ca, neg);
      fs := es;
      if costly {
        return true, es;
      }
      ghost var cb, us := ca, units;
      ghost var gone, n := eliminated + {v}, next;
      SidesSplit(cb, us, v, pos, neg);
      eliminated := eliminated + {v};
      StoreEntries(pos, neg, v, es);
      fs := es + Stored(v, ps, ns);
      RemoveAll(cls, v);
      ghost var cc := ca;
      OthersCleared(cb, cc, us, old(eliminated), v, n);
      SidesOnly(cb, us, old(eliminated), v, pos, neg);
      ghost var rs;
      NotCostlyMeans(cb, v, grow, clauseLim);
      r, rs := CrossProduct(ps, ns, v, gone, cb, pos, neg, clauseLim);
      if !r {
        ProducedContradiction(cb, us, v, ps, ns, cc, rs);
        return;
      }
      ghost var cd, vs, q := ca, units, queue;
      occurs := occurs[v := []];
      ghost var oc := occurs;
      UnlistedEliminated(ca, units, next, gone, v);
      var asked;
      r, asked := BackwardSubsumptionCheck(subsumptionLim, interrupts);
      if !r {
        ProducedUnsuitable(cc, us, rs, cd, vs);
        ProducedContradiction(cb, us, v, ps, ns, cc, rs);
        return;
      }
      NarrowsNothing(oc, occurs, v);
      if asked == 0 || !interrupts(asked) {
        SoFinished(cb, old(queue), cc, us, cd, vs, q, bwdsubAssigns, old(bwdsubAssigns), ca, units, subsumptionLim, v);
      }
      SoModest(cb, cc, cd, vs, ca, units, next, v, grow, clauseLim);
      SmallerCleared(cd, vs, ca, units, gone);
      EliminatedBy(cb, us, n, old(eliminated), es, v, ps, ns, cc, rs, cd, vs, ca, units);
    }
  }

  lemma NothingListed()
    ensures WellStored(map[], 0) && AllListed(map[], map[], 0)
  {
    var ca: Clauses, occurs: Occurrences, next: nat := map[], map[], 0;
    forall v: nat ensures Listed(ca, occurs, next, v) {}
  }

  lemma RemainingNone(us: seq<Literal>, c: Clause)
    ensures Remaining(us, c[..0]) == []
  {
  }

  lemma RemainingNext(us: seq<Literal>, c: Clause, i: nat)
    requires i < |c|
    ensures Remaining(us, c[..i + 1]) ==
              if c[i].Negated() in us then Remaining(us, c[..i]) else Remaining(us, c[..i]) + [c[i]]
  {
    assert c[..i + 1][..i] == c[..i];
  }

  lemma LeftNone(us: seq<Literal>, c: Clause)
    ensures Left(us, c, 0, [])
  {
  }

  lemma LeftIn(us: seq<Literal>, c: Clause, out: Clause)
    requires Left(us, c, |c|, out)
    ensures Clean(out) && (forall l :: l in out ==> l in c) && forall v :: Mentions(out, v) ==> Mentions(c, v)
  {
    assert c[..|c|] == c;
    forall v | Mentions(out, v) ensures Mentions(c, v) {
      var i :| 0 <= i < |out| && out[i].variable == v;
      MentionsMember(c, out[i]);
    }
  }

  lemma NotStored(ca: Clauses, next: nat)
    requires WellStored(ca, next)
    ensures next !in ca
  {
  }

  lemma StoredAt(ca: Clauses, next: nat, cr: nat)
    requires WellStored(ca, next) && cr in ca
    ensures Clean(ca[cr]) && |ca[cr]| >= 2
  {
  }

  lemma UnitStrengthened(ca: Clauses, us: seq<Literal>, cr: nat, c: Clause, vs: seq<Literal>, r: bool)
    requires cr in ca && |c| == 1 && AddsSuits(ca - {cr}, us, c, ca, us)
    requires r == (c[0].Negated() !in us || c[0] in us)
    requires vs == if c[0] in us || c[0].Negated() in us then us else us + [c[0]]
    ensures r ==> SameSuits(ca, us, ca - {cr}, vs)
    ensures !r ==> Unsuitable(ca, us)
  {
    forall m: Model ensures Satisfies(m, c) <==> Holds(m, c[0]) {}
    forall m: Model ensures r ==> (Suits(m, ca, us) <==> Suits(m, ca - {cr}, vs)) ensures !r ==> !Suits(m, ca, us) {
      UnitSuits(m, ca - {cr}, us, c[0]);
    }
  }
}
