/** When verdicts can be trusted. */
module Alignment {
  // This can be read off the generators alone.
  // Following the inverse of a moved variable back through the variables before it in the order
  // tells whether a walk can stop at its pair with both values assigned and different.

  import opened Logic
  import opened LexLeader
  import opened Lookup
  import opened Soundness
  import opened Runs
  import opened Detection
  import opened RunBuilding

  ghost predicate OneToOne(inverse: map<Literal, Literal>) {
    forall l, k {:trigger inverse[l], inverse[k]} :: l in inverse && k in inverse && inverse[l] == inverse[k] ==> l == k
  }

  ghost predicate Permutes(g: Generator) { ValidGenerator(g) && OneToOne(g.inverse) }

  /** The variables before the `k`-th looked up one. */
  function Before(g: Generator, k: nat): set<nat>
    requires k < |g.lookup| && |g.ranks| == |g.order| && g.lookup[k].variable < |g.order|
  {
    set v: nat | v < |g.order| && g.ranks[v] < g.ranks[g.lookup[k].variable]
  }

  /** Follows the inverse from `l` through the variables of `left`, each at most once. */
  function Back(g: Generator, l: Literal, left: set<nat>): Literal
    decreases |left|
  {
    if l.variable in left && l in g.inverse then Back(g, g.inverse[l], left - {l.variable}) else l
  }

  /** Where the walk back from the `k`-th pair leaves the earlier variables: at a later variable,
      or at the `k`-th literal itself or its negation. */
  function Return(g: Generator, k: nat): Literal
    requires ValidGenerator(g) && k < |g.lookup|
  {
    Back(g, g.inverse[g.lookup[k]], Before(g, k))
  }

  /** The earlier pairs do not already force the `k`-th pair to agree, and none of them can
      never agree. */
  ghost predicate Decidable(g: Generator, k: nat)
    requires ValidGenerator(g) && k < |g.lookup|
  {
    Return(g, k) != g.lookup[k] && forall i :: 0 <= i < k ==> Return(g, i) != g.lookup[i].Negated()
  }

  /** The element is not later than its inverse wherever a walk can come to a decision. */
  ghost predicate Trustworthy(g: Generator)
    requires ValidGenerator(g)
  {
    forall k :: 0 <= k < |g.lookup| && Decidable(g, k) ==> Aligned(g, k)
  }

  // ---------------------------------------------------------------- what earlier pairs force

  lemma EarlierIsLookedUp(g: Generator, k: nat, l: Literal) returns (i: nat)
    requires ValidGenerator(g) && k < |g.lookup| && l in g.inverse && l.variable in Before(g, k)
    ensures i < k && g.lookup[i] == Literal(l.variable, true) && (l == g.lookup[i] || Opposite(g.lookup[i], l))
  {
    var positive := Literal(l.variable, true);
    assert l == positive || Opposite(l, positive);
    assert Moves(g.inverse, l.variable);
    i :| 0 <= i < |g.lookup| && g.lookup[i] == positive;
  }

  lemma EarlierAgrees(g: Generator, m: Model, k: nat, l: Literal)
    requires ValidGenerator(g) && k < |g.lookup| && l in g.inverse && l.variable in Before(g, k)
    requires forall i :: 0 <= i < k ==> ModelAgrees(g, m, i)
    ensures Holds(m, g.inverse[l]) == Holds(m, l)
  {
    var i := EarlierIsLookedUp(g, k, l);
    assert ModelAgrees(g, m, i);
  }

  lemma {:induction false} BackAgrees(g: Generator, m: Model, k: nat, l: Literal, left: set<nat>)
    requires ValidGenerator(g) && k < |g.lookup| && left <= Before(g, k)
    requires forall i :: 0 <= i < k ==> ModelAgrees(g, m, i)
    ensures Holds(m, Back(g, l, left)) == Holds(m, l)
    decreases |left|
  {
    if l.variable in left && l in g.inverse {
      EarlierAgrees(g, m, k, l);
      BackAgrees(g, m, k, g.inverse[l], left - {l.variable});
    }
  }

  /** A walk that stands at a decided pair is at a decidable one. */
  lemma DecidedIsDecidable(g: Generator, p: Partial, k: nat)
    requires ValidGenerator(g) && DecidedAt(g, p, k)
    ensures Decidable(g, k)
  {
    var m := Completion(p);
    assert Extends(m, p);
    ExtensionAgrees(g, p, k, m);
    BackAgrees(g, m, k, g.inverse[g.lookup[k]], Before(g, k));
    forall i | 0 <= i < k ensures Return(g, i) != g.lookup[i].Negated() {
      BackAgrees(g, m, i, g.inverse[g.lookup[i]], Before(g, i));
      assert ModelAgrees(g, m, i);
    }
  }

  // ---------------------------------------------------------------- the walk never repeats itself

  function InverseOfVariable(g: Generator, v: nat): nat
    requires Moves(g.inverse, v)
  {
    g.inverse[Literal(v, true)].variable
  }

  lemma InverseVariable(g: Generator, l: Literal)
    requires ValidGenerator(g) && l in g.inverse
    ensures Moves(g.inverse, l.variable) && g.inverse[l].variable == InverseOfVariable(g, l.variable)
    ensures g.inverse[l] in g.inverse && Moves(g.inverse, g.inverse[l].variable)
  {
    var positive, image := Literal(l.variable, true), g.inverse[l];
    assert l == positive || Opposite(l, positive);
    assert MovesImage(g.inverse, l);
    assert image == Literal(image.variable, true) || Opposite(image, Literal(image.variable, true));
  }

  lemma VariablesOneToOne(g: Generator, v: nat, u: nat)
    requires Permutes(g) && Moves(g.inverse, v) && Moves(g.inverse, u)
    requires InverseOfVariable(g, v) == InverseOfVariable(g, u)
    ensures v == u
  {
    var x, y, z := Literal(v, true), Literal(u, true), Literal(u, false);
    assert Opposite(y, z);
    assert g.inverse[x] != g.inverse[z];
    assert g.inverse[x] == g.inverse[y];
  }

  ghost predicate Follows(g: Generator, u: nat, v: nat) { Moves(g.inverse, u) && InverseOfVariable(g, u) == v }

  /** Something of the walk other than `last` leads to `w`. */
  ghost predicate Preceded(g: Generator, start: nat, visited: set<nat>, last: nat, w: nat) {
    exists u :: Follows(g, u, w) && (u in visited || u == start) && u != last
  }

  ghost predicate LeadsInto(g: Generator, visited: set<nat>, v: nat, u: nat) {
    Moves(g.inverse, u) && (InverseOfVariable(g, u) in visited || InverseOfVariable(g, u) == v)
  }

  /** The walk from the `k`-th pair has gone through `visited` and stands at `v`, which follows
      `last`. */
  ghost predicate Walked(g: Generator, k: nat, visited: set<nat>, v: nat, last: nat)
    requires k < |g.lookup|
  {
    var start := g.lookup[k].variable;
    start !in visited && Follows(g, last, v) && (last in visited || last == start) &&
    (forall u :: u in visited || u == start ==> LeadsInto(g, visited, v, u)) &&
    (forall w :: w in visited ==> Preceded(g, start, visited, last, w))
  }

  lemma WalkedOn(g: Generator, k: nat, visited: set<nat>, v: nat, last: nat)
    requires k < |g.lookup| && Walked(g, k, visited, v, last)
    requires v !in visited && v != g.lookup[k].variable && Moves(g.inverse, v)
    ensures Walked(g, k, visited + {v}, InverseOfVariable(g, v), v)
  {
    hide Permutes, InverseOfVariable, Preceded, Before, Moves, LeadsInto, Follows;
    var start, more := g.lookup[k].variable, visited + {v};
    forall u | u in more || u == start ensures LeadsInto(g, more, InverseOfVariable(g, v), u) {
      LeadsMore(g, visited, v, u);
    }
    forall w | w in more ensures Preceded(g, start, more, v, w) {
      PrecededMore(g, start, visited, last, v, w);
    }
    FollowsInverse(g, v);
  }

  lemma FollowsInverse(g: Generator, v: nat)
    requires Moves(g.inverse, v)
    ensures Follows(g, v, InverseOfVariable(g, v))
  {
    hide InverseOfVariable;
  }

  lemma LeadsMore(g: Generator, visited: set<nat>, v: nat, u: nat)
    requires Moves(g.inverse, v) && (LeadsInto(g, visited, v, u) || u == v)
    ensures LeadsInto(g, visited + {v}, InverseOfVariable(g, v), u)
  {
    hide InverseOfVariable;
  }

  lemma PrecededMore(g: Generator, start: nat, visited: set<nat>, last: nat, v: nat, w: nat)
    requires v !in visited && v != start && Follows(g, last, v) && (last in visited || last == start)
    requires w == v || Preceded(g, start, visited, last, w)
    ensures Preceded(g, start, visited + {v}, v, w)
  {
    hide Follows;
    var u := last;
    if w != v {
      u :| Follows(g, u, w) && (u in visited || u == start) && u != last;
    }
    assert Follows(g, u, w) && u in visited + {start};
  }

  lemma NotVisited(g: Generator, k: nat, visited: set<nat>, v: nat, last: nat)
    requires Permutes(g) && k < |g.lookup| && Walked(g, k, visited, v, last)
    ensures v !in visited
  {
    hide Permutes, InverseOfVariable;
    if v in visited {
      assert Preceded(g, g.lookup[k].variable, visited, last, v);
      var u :| Follows(g, u, v) && u != last;
      VariablesOneToOne(g, u, last);
    }
  }

  lemma StepBack(g: Generator, k: nat, l: Literal, visited: set<nat>, last: nat)
    requires Permutes(g) && k < |g.lookup| && l in g.inverse && l.variable in Before(g, k)
    requires Walked(g, k, visited, l.variable, last)
    ensures g.inverse[l] in g.inverse && Walked(g, k, visited + {l.variable}, g.inverse[l].variable, l.variable)
  {
    NotVisited(g, k, visited, l.variable, last);
    InverseVariable(g, l);
    assert l.variable != g.lookup[k].variable;
    WalkedOn(g, k, visited, l.variable, last);
    hide Walked, Permutes;
  }

  /** The variables of the walk and the last of them before it ends. */
  lemma {:induction false} WalkBack(g: Generator, k: nat, l: Literal, left: set<nat>, visited: set<nat>, last: nat)
    returns (all: set<nat>, final: nat)
    requires Permutes(g) && k < |g.lookup| && l in g.inverse && visited <= Before(g, k)
    requires left == Before(g, k) - visited
    requires Walked(g, k, visited, l.variable, last)
    ensures all <= Before(g, k) && Walked(g, k, all, Back(g, l, left).variable, final)
    ensures Back(g, l, left).variable !in Before(g, k)
    decreases |left|
  {
    hide Permutes, Walked, InverseOfVariable, Before;
    if l.variable in left {
      StepBack(g, k, l, visited, last);
      all, final := WalkBack(g, k, g.inverse[l], left - {l.variable}, visited + {l.variable}, l.variable);
    } else {
      NotVisited(g, k, visited, l.variable, last);
      all, final := visited, last;
    }
  }

  // ---------------------------------------------------------------- building assignments

  function Flipped(m: Model, f: set<nat>): Model { (v: nat) => if v in f then !m(v) else m(v) }

  /** If the walk back ends at a later variable, flipping what it goes through keeps the earlier
      pairs and changes the `k`-th. */
  lemma Flip(g: Generator, k: nat, m: Model) returns (n: Model)
    requires Permutes(g) && k < |g.lookup| && Return(g, k).variable != g.lookup[k].variable
    requires forall i :: 0 <= i < k ==> ModelAgrees(g, m, i)
    ensures forall i :: 0 <= i < k ==> ModelAgrees(g, n, i)
    ensures ModelAgrees(g, n, k) != ModelAgrees(g, m, k)
  {
    var x := g.lookup[k];
    InverseVariable(g, x);
    var all, last := WalkBack(g, k, g.inverse[x], Before(g, k), {}, x.variable);
    var f := all + {Return(g, k).variable};
    n := Flipped(m, f);
    forall i | 0 <= i < k ensures ModelAgrees(g, n, i) {
      InverseVariable(g, g.lookup[i]);
      SideBySide(g, k, all, Return(g, k).variable, last, g.lookup[i].variable);
      assert ModelAgrees(g, m, i);
    }
    assert x.variable !in f && g.inverse[x].variable in f;
  }

  lemma SideBySide(g: Generator, k: nat, all: set<nat>, end: nat, last: nat, v: nat)
    requires Permutes(g) && k < |g.lookup| && Walked(g, k, all, end, last)
    requires v in Before(g, k) && end !in Before(g, k) && Moves(g.inverse, v)
    ensures v in all + {end} <==> InverseOfVariable(g, v) in all + {end}
  {
    hide Permutes, InverseOfVariable;
    if InverseOfVariable(g, v) in all {
      assert Preceded(g, g.lookup[k].variable, all, last, InverseOfVariable(g, v));
      var u :| Follows(g, u, InverseOfVariable(g, v)) && (u in all || u == g.lookup[k].variable);
      VariablesOneToOne(g, u, v);
    } else if InverseOfVariable(g, v) == end {
      VariablesOneToOne(g, last, v);
    }
  }

  /** A model in which the first `k` pairs agree. */
  lemma {:induction false} AgreeingModel(g: Generator, k: nat) returns (m: Model)
    requires Permutes(g) && k <= |g.lookup| && forall i :: 0 <= i < k ==> Return(g, i) != g.lookup[i].Negated()
    ensures forall i :: 0 <= i < k ==> ModelAgrees(g, m, i)
  {
    if k == 0 {
      m := _ => false;
    } else {
      m := AgreeingModel(g, k - 1);
      if !ModelAgrees(g, m, k - 1) {
        LeavesLater(g, m, k - 1);
        hide Return;
        m := Flip(g, k - 1, m);
      }
    }
  }

  /** What the walk back returns to if it does not leave at a later variable. */
  lemma LeavesLater(g: Generator, m: Model, k: nat)
    requires ValidGenerator(g) && k < |g.lookup| && forall i :: 0 <= i < k ==> ModelAgrees(g, m, i)
    requires Return(g, k) != if ModelAgrees(g, m, k) then g.lookup[k] else g.lookup[k].Negated()
    ensures Return(g, k).variable != g.lookup[k].variable
  {
    BackAgrees(g, m, k, g.inverse[g.lookup[k]], Before(g, k));
  }

  function Total(g: Generator, m: Model): Partial { map v: nat | v < |g.order| :: m(v) }

  lemma TotalAgrees(g: Generator, m: Model, i: int)
    requires ValidGenerator(g) && 0 <= i < |g.lookup|
    ensures PairAgrees(g, Total(g, m), i) <==> ModelAgrees(g, m, i)
  {
  }

  /** At a decidable pair some assignment is decided, with the verdict REDUCER. */
  lemma DecidableIsDecided(g: Generator, k: nat) returns (p: Partial)
    requires Permutes(g) && k < |g.lookup| && Decidable(g, k)
    ensures DecidedAt(g, p, k) && Verdict(g, p, k) == REDUCER && forall v: nat :: v in p <==> v < |g.order|
  {
    var m := AgreeingModel(g, k);
    var x := g.lookup[k];
    if ModelAgrees(g, m, k) {
      LeavesLater(g, m, k);
      m := Flip(g, k, m);
    }
    if IsMinimalValue(g.mode, Total(g, m), g.Leq(x, g.inverse[x])) {
      m := Opposed(g, m, k);
    }
    p := Total(g, m);
    forall i | 0 <= i <= k ensures PairAgrees(g, p, i) <==> ModelAgrees(g, m, i) {
      TotalAgrees(g, m, i);
    }
  }

  /** Every value turned round: the same pairs agree. */
  lemma Opposed(g: Generator, m: Model, k: nat) returns (n: Model)
    requires ValidGenerator(g)
    ensures forall v: nat :: n(v) == !m(v)
    ensures forall i :: 0 <= i <= k < |g.lookup| ==> (ModelAgrees(g, n, i) <==> ModelAgrees(g, m, i))
  {
    n := (v: nat) => !m(v);
  }

  // ---------------------------------------------------------------- the exact condition

  /** A generator is trustworthy if and only if every REDUCER verdict it can ever reach is
      right about all extensions of the assignment. */
  lemma TrustworthyExactly(g: Generator)
    requires Permutes(g)
    ensures Trustworthy(g) <==>
              forall p, k {:trigger DecidedAt(g, p, k)} :: DecidedAt(g, p, k) && Verdict(g, p, k) == REDUCER ==>
                forall m :: Extends(m, p) ==> LexLess(g.order, g.mode, Image(g, m), m)
  {
    forall p, k | DecidedAt(g, p, k) && Verdict(g, p, k) == REDUCER
      ensures Decidable(g, k)
      ensures Aligned(g, k) <==> forall m :: Extends(m, p) ==> LexLess(g.order, g.mode, Image(g, m), m)
    {
      DecidedIsDecidable(g, p, k);
      ReducerVerdictExact(g, p, k);
    }
    forall k | 0 <= k < |g.lookup| && Decidable(g, k)
      ensures exists p :: DecidedAt(g, p, k) && Verdict(g, p, k) == REDUCER
    {
      var p := DecidableIsDecided(g, k);
    }
  }

  // ---------------------------------------------------------------- the same condition on runs

  /** What the clause forbids comes after its image. */
  ghost predicate ForbidsGreater(g: Generator, c: Clause) {
    forall m: Model :: !Satisfies(m, c) ==> LexLess(g.order, g.mode, Image(g, m), m)
  }

  /** What the clause forbids, if only assignments that come before their image. */
  ghost predicate ForbidsSmaller(g: Generator, c: Clause) {
    (forall m: Model :: !Satisfies(m, c) ==> LexLess(g.order, g.mode, m, Image(g, m))) &&
    exists m: Model :: !Satisfies(m, c)
  }

  lemma EmissionCompares(gens: seq<Generator>, base: Partial, s: System, l: Literal, visited: set<nat>, r: nat,
                         c: Clause, t: System)
    requires forall i :: 0 <= i < |gens| ==> ValidGenerator(gens[i])
    requires Inv(gens, base, s) && NotifyEmits(gens, s, l, visited, r, c, t)
    ensures ValidGenerator(gens[r]) && Reduces(gens[r], t.values, t.statuses[r].index)
    ensures if Aligned(gens[r], t.statuses[r].index) then ForbidsGreater(gens[r], c) else ForbidsSmaller(gens[r], c)
  {
    NotifyKeepsInv(gens, base, s, l, visited, t);
    EmitterDecided(gens, base, s, l, visited, r, c, t);
    var g, k := gens[r], t.statuses[r].index;
    forall m: Model | !Satisfies(m, c)
      ensures if Aligned(g, k) then LexLess(g.order, g.mode, Image(g, m), m)
              else LexLess(g.order, g.mode, m, Image(g, m))
    {
      FalsifiedCompares(g, t.values, l.variable, k, c, m);
    }
    EsbpIsFalsified(g, t.values, l.variable, k, c);
    assert !Satisfies(Completion(t.values), c);
  }

  /** Whatever a trustworthy generator emits, in whatever company, forbids only assignments
      that come after their image. */
  lemma TrustworthyEmits(gens: seq<Generator>, base: Partial, s: System, l: Literal, visited: set<nat>, r: nat,
                         c: Clause, t: System)
    requires forall i :: 0 <= i < |gens| ==> ValidGenerator(gens[i])
    requires Inv(gens, base, s) && NotifyEmits(gens, s, l, visited, r, c, t) && Trustworthy(gens[r])
    ensures ForbidsGreater(gens[r], c)
  {
    EmissionCompares(gens, base, s, l, visited, r, c, t);
    DecidedIsDecidable(gens[r], t.values, t.statuses[r].index);
  }

  /** One more literal is notified: the generator emits a clause or the run goes on. */
  lemma NotifyOne(g: Generator, u: System, l: Literal) returns (w: System, emits: bool, t: System, c: Clause)
    requires ValidGenerator(g) && Inv([g], map[], u) && l.variable !in u.values
    ensures if emits
            then w == u && NotifyEmits([g], u, l, {0}, 0, c, t) && t.values == u.values[l.variable := l.positive]
            else Inv([g], map[], w) && w.values == u.values[l.variable := l.positive] &&
                 forall z :: Reaches([g], z, u, false) ==> Reaches([g], z, w, false)
  {
    hide ValidGenerator, Reaches, Undoable, AssignedBy, FreshTrail;
    var q := u.values[l.variable := l.positive];
    w, emits, t, c := u, false, u, [];
    if Moves(g.inverse, l.variable) && StatusFits(g, u) && Notified(g, q, l.variable, u.statuses[0]).state == REDUCER {
      emits := true;
      t, c := EmitStep([g], u, l, 0);
    } else {
      InvFits(g, u);
      w := QuietStep([g], u, l);
    }
  }

  ghost predicate StatusFits(g: Generator, u: System) { |u.statuses| == 1 && u.statuses[0].index <= |g.lookup| }

  lemma InvFits(g: Generator, u: System)
    requires Inv([g], map[], u)
    ensures StatusFits(g, u)
  {
  }

  /** The values of `p` below `n` are notified one after the other, until a clause is emitted. */
  lemma {:induction false} NotifyUpTo(g: Generator, p: Partial, n: nat)
    returns (s: System, u: System, emits: bool, l: Literal, t: System, c: Clause)
    requires ValidGenerator(g) && forall v :: 0 <= v < n ==> v in p
    ensures Reaches([g], s, u, false) && Inv([g], map[], u)
    ensures !emits ==> u.values == map v | v in p && v < n :: p[v]
    ensures emits ==>
        NotifyEmits([g], u, l, {0}, 0, c, t) && forall v :: v in t.values ==> v in p && t.values[v] == p[v]
  {
    hide ValidGenerator, Reaches, Inv, NotifyEmits;
    if n == 0 {
      s := Start([g]);
      InitValues([g], s);
      u, emits, l, t, c := s, false, FromIndex(0), s, [];
    } else {
      s, u, emits, l, t, c := NotifyUpTo(g, p, n - 1);
      if !emits {
        l := Literal(n - 1, p[n - 1]);
        u, emits, t, c := NotifyOne(g, u, l);
      }
    }
  }

  lemma InitValues(gens: seq<Generator>, s: System)
    requires Init(gens, map[], s)
    ensures s.values == map[]
  {
  }

  lemma StopsOnce(g: Generator, p: Partial, j: nat, q: Partial, k: nat)
    requires ValidGenerator(g) && DecidedAt(g, p, j) && DecidedAt(g, q, k)
    requires forall v :: v in p ==> v in q && q[v] == p[v]
    ensures j == k
  {
    PairsStillAgree(g, p, q, j);
    assert j < k ==> PairAgrees(g, q, j);
    assert k < j ==> PairAgrees(g, q, k);
  }

  lemma OverlooksNone(g: Generator, u: System, k: nat)
    requires NoneOverlooked([g], u) && ValidGenerator(g) && DecidedAt(g, u.values, k)
    ensures Verdict(g, u.values, k) != REDUCER
  {
    var i := u.statuses[0].index;
    assert Exact([g][0], u.values, i);
    assert i < k ==> PairAgrees(g, u.values, i);
    assert k < i ==> PairAgrees(g, u.values, k);
  }

  /** An untrustworthy generator, alone and with a solver that answers every clause, emits one that
      forbids only assignments that come before their image. */
  lemma UntrustworthyEmits(g: Generator) returns (s: System, u: System, l: Literal, t: System, c: Clause)
    requires Permutes(g) && !Trustworthy(g)
    ensures Reaches([g], s, u, false) && NotifyEmits([g], u, l, {0}, 0, c, t) && ForbidsSmaller(g, c)
  {
    hide Reaches, Inv, Visited, Quiet, ValidGenerator, Decidable, ForbidsSmaller, ForbidsGreater, NoneOverlooked,
      DecidedAt, OneToOne;
    var k :| 0 <= k < |g.lookup| && Decidable(g, k) && !Aligned(g, k);
    var p := DecidableIsDecided(g, k);
    var emits;
    s, u, emits, l, t, c := NotifyUpTo(g, p, |g.order|);
    if emits {
      EmissionCompares([g], map[], u, l, {0}, 0, c, t);
      StopsOnce(g, t.values, t.statuses[0].index, p, k);
    } else {
      assert u.values == p;
      ReachedExact([g], s, u, false);
      OverlooksNone(g, u, k);
    }
  }

  /** A generator is trustworthy if and only if nothing it emits on its own, in any run of a
      solver that answers the clauses, forbids an assignment that comes before its image. */
  lemma TrustworthyByRuns(g: Generator)
    requires Permutes(g)
    ensures Trustworthy(g) <==>
              forall s, u, alarm, l, visited, r, c, t
                {:trigger Reaches([g], s, u, alarm), NotifyEmits([g], u, l, visited, r, c, t)} ::
                Reaches([g], s, u, alarm) && NotifyEmits([g], u, l, visited, r, c, t) ==> ForbidsGreater(g, c)
  {
    if Trustworthy(g) {
      forall s, u, alarm, l, visited, r, c, t
        | Reaches([g], s, u, alarm) && NotifyEmits([g], u, l, visited, r, c, t)
        ensures ForbidsGreater(g, c)
      {
        ReachedExact([g], s, u, alarm);
        TrustworthyEmits([g], map[], u, l, visited, r, c, t);
      }
    } else {
      var s, u, l, t, c := UntrustworthyEmits(g);
      NotBoth(g, c);
    }
  }

  lemma NotBoth(g: Generator, c: Clause)
    requires ForbidsSmaller(g, c)
    ensures !ForbidsGreater(g, c)
  {
    var m: Model :| !Satisfies(m, c);
    LexLessAsymmetric(g.order, g.mode, m, Image(g, m));
  }

  lemma InvolutionTrustworthy(g: Generator)
    requires ValidGenerator(g) && Involution(g)
    ensures Permutes(g) && Trustworthy(g)
  {
    forall l, k | l in g.inverse && k in g.inverse && g.inverse[l] == g.inverse[k] ensures l == k {
      assert g.inverse[g.inverse[l]] == l && g.inverse[g.inverse[k]] == k;
    }
    forall k | 0 <= k < |g.lookup| && Decidable(g, k) ensures Aligned(g, k) {
      var p := DecidableIsDecided(g, k);
      InvolutionAligned(g, p, k);
    }
  }

  /** For trustworthy generators every run keeps satisfiability: a condition on the generators
      and the order, before anything is notified. */
  lemma TrustworthyEquisatisfiable(gens: seq<Generator>, f: set<Clause>, order: seq<nat>, ranks: seq<nat>,
                                   mode: ValueMode,
                                   base: Partial, run: seq<System>, events: seq<Literal>)
    requires ValidGroup(gens, order, ranks, mode)
    requires forall j :: 0 <= j < |gens| ==> IsSymmetry(gens[j], f) && Trustworthy(gens[j])
    requires ValidRun(gens, run, events) && Runs.Init(gens, base, run[0])
    ensures Satisfiable(f + run[|run| - 1].emitted) <==> Satisfiable(f)
  {
    InitInv(gens, base, run[0]);
    forall j | 0 <= j < |run| ensures AlignedState(gens, run[j]) {
      RunKeepsInv(gens, base, run, events, j);
      forall r | 0 <= r < |gens| && Reduces(gens[r], run[j].values, run[j].statuses[r].index)
        ensures Aligned(gens[r], run[j].statuses[r].index)
      {
        DecidedIsDecidable(gens[r], run[j].values, run[j].statuses[r].index);
      }
    }
    RunEquisatisfiable(gens, f, order, ranks, mode, base, run, events);
  }
}
