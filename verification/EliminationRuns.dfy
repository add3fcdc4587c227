/** Runs of variable eliminations. */
module EliminationRuns {
  // With equivalent rewritings in between, and the models of the original clauses they give back.

  import opened Logic
  import opened Resolution
  import opened Elimination

  /** The clauses, the eliminated variables and the stored entries. */
  datatype State = State(f: set<Clause>, gone: set<nat>, entries: seq<Entry>)

  ghost predicate WellFormed(s: State) {
    forall c :: c in s.f ==> Clean(c) && forall l :: l in c ==> l.variable !in s.gone
  }

  ghost predicate AllHave(cs: seq<Clause>, f: set<Clause>, l: Literal) {
    forall i :: 0 <= i < |cs| ==> cs[i] in f && Clean(cs[i]) && l in cs[i] && Mentions(cs[i], l.variable)
  }

  /** The clauses with the variable, by the sign of its literal. */
  ghost predicate Splits(f: set<Clause>, v: nat, pos: seq<Clause>, neg: seq<Clause>) {
    AllHave(pos, f, Literal(v, true)) && AllHave(neg, f, Literal(v, false)) &&
    forall c :: c in f && Mentions(c, v) ==> c in pos || c in neg
  }

  ghost predicate ResolventOf(pos: seq<Clause>, neg: seq<Clause>, v: nat, c: Clause) {
    exists p, q :: p in pos && q in neg && !Clash(p, q, v) && IsResolvent(p, q, v, c)
  }

  /** The clauses with the variable give way to their resolvents. */
  ghost predicate Resolved(f: set<Clause>, g: set<Clause>, v: nat, pos: seq<Clause>, neg: seq<Clause>) {
    (forall c :: c in f && !Mentions(c, v) ==> c in g) &&
    (forall p, q :: p in pos && q in neg && !Clash(p, q, v) ==> exists c :: c in g && IsResolvent(p, q, v, c)) &&
    (forall c :: c in g ==> (c in f && !Mentions(c, v)) || ResolventOf(pos, neg, v, c))
  }

  function Witnesses(cs: seq<Clause>, v: nat): seq<Entry>
    requires forall i :: 0 <= i < |cs| ==> Mentions(cs[i], v)
  {
    if cs == [] then [] else Witnesses(cs[..|cs| - 1], v) + [WitnessFirst(cs[|cs| - 1], v)]
  }

  /** The smaller side is stored, and on top of it the opposite literal alone. */
  ghost function Stored(v: nat, pos: seq<Clause>, neg: seq<Clause>): seq<Entry>
    requires forall i :: 0 <= i < |pos| ==> Mentions(pos[i], v)
    requires forall i :: 0 <= i < |neg| ==> Mentions(neg[i], v)
  {
    if |pos| > |neg| then Witnesses(neg, v) + [[Literal(v, true)]] else Witnesses(pos, v) + [[Literal(v, false)]]
  }

  /** The entry holds the literals of the clause, the one over `v` first. */
  ghost predicate EntryOf(e: Entry, c: Clause, v: nat) {
    e != [] && e[0].variable == v && multiset(e) == multiset(c)
  }

  lemma WitnessIs(c: Clause, v: nat)
    requires Mentions(c, v)
    ensures EntryOf(WitnessFirst(c, v), c, v)
  {
    var i := Slot(c, v);
    assert c[i := c[0]][0 := c[i]] == if i == 0 then c else [c[i]] + c[1..i] + [c[0]] + c[i + 1..];
    assert c == if i == 0 then c else [c[0]] + c[1..i] + [c[i]] + c[i + 1..];
  }

  lemma {:induction false} WitnessesAre(cs: seq<Clause>, v: nat, i: nat)
    requires (forall k :: 0 <= k < |cs| ==> Mentions(cs[k], v)) && i < |cs|
    ensures |Witnesses(cs, v)| == |cs| && EntryOf(Witnesses(cs, v)[i], cs[i], v)
  {
    hide Mentions;
    if i < |cs| - 1 {
      WitnessesAre(cs[..|cs| - 1], v, i);
    } else {
      if |cs| > 1 {
        WitnessesAre(cs[..|cs| - 1], v, 0);
      }
      WitnessIs(cs[i], v);
    }
  }

  /** Whichever side has fewer clauses is kept in full, with the literal that makes the other side true
      on top. */
  lemma StoredIsSmaller(v: nat, pos: seq<Clause>, neg: seq<Clause>)
    requires forall i :: 0 <= i < |pos| ==> Mentions(pos[i], v)
    requires forall i :: 0 <= i < |neg| ==> Mentions(neg[i], v)
    ensures var es := Stored(v, pos, neg);
            |es| == (if |neg| < |pos| then |neg| else |pos|) + 1 &&
            es[|es| - 1] == [Literal(v, |neg| < |pos|)] &&
            forall i :: 0 <= i < |es| - 1 ==> EntryOf(es[i], if |neg| < |pos| then neg[i] else pos[i], v)
  {
    hide Mentions, EntryOf;
    var side := if |pos| > |neg| then neg else pos;
    forall i | 0 <= i < |side| ensures |Witnesses(side, v)| == |side| && EntryOf(Witnesses(side, v)[i], side[i], v) {
      WitnessesAre(side, v, i);
    }
  }

  ghost predicate Eliminates(s: State, u: State, v: nat, pos: seq<Clause>, neg: seq<Clause>) {
    v !in s.gone && Splits(s.f, v, pos, neg) && Resolved(s.f, u.f, v, pos, neg) &&
    u.gone == s.gone + {v} && u.entries == s.entries + Stored(v, pos, neg)
  }

  /** Subsumption, strengthening, unit propagation: the models stay. */
  ghost predicate Rewrites(s: State, u: State) {
    u.gone == s.gone && u.entries == s.entries && forall m: Model :: Models(m, s.f) <==> Models(m, u.f)
  }

  ghost predicate Step(s: State, u: State) {
    WellFormed(s) && WellFormed(u) && (Rewrites(s, u) || exists v, pos, neg :: Eliminates(s, u, v, pos, neg))
  }

  ghost predicate Run(ss: seq<State>) {
    ss != [] && ss[0].gone == {} && ss[0].entries == [] && forall i :: 0 <= i < |ss| - 1 ==> Step(ss[i], ss[i + 1])
  }

  /** Every variable not eliminated has a value. */
  ghost predicate Covers(a: Assignment, s: State) {
    forall c, l :: c in s.f && l in c ==> l.variable in a
  }

  function ToModel(a: Assignment): Model { v => v in a && a[v] }

  lemma ToModelSatisfies(a: Assignment, c: Clause)
    requires forall l :: l in c ==> l.variable in a
    ensures Satisfies(ToModel(a), c) <==> SatisfiedBy(a, c)
  {
    if Satisfies(ToModel(a), c) {
      var l :| l in c && Holds(ToModel(a), l);
      var i :| 0 <= i < |c| && c[i] == l;
    }
    if SatisfiedBy(a, c) {
      var i :| 0 <= i < |c| && c[i].variable in a && a[c[i].variable] == c[i].positive;
      assert Holds(ToModel(a), c[i]);
    }
  }

  lemma RewriteBack(s: State, u: State, a: Assignment)
    requires Rewrites(s, u) && Covers(a, s) && Covers(a, u) && AllSatisfiedBy(a, u.f)
    ensures AllSatisfiedBy(a, s.f)
  {
    var m := ToModel(a);
    forall c | c in u.f ensures Satisfies(m, c) {
      ToModelSatisfies(a, c);
    }
    assert Models(m, u.f);
    assert Models(m, s.f);
    forall c | c in s.f ensures SatisfiedBy(a, c) {
      ToModelSatisfies(a, c);
    }
  }

  /** Every literal of the clause over another variable is false. */
  ghost predicate OthersFalse(a: Assignment, c: Clause, v: nat) {
    forall l :: l in c && l.variable != v ==> !NotFalse(a, l)
  }

  ghost predicate SomeOthersFalse(a: Assignment, cs: seq<Clause>, v: nat) {
    exists c :: c in cs && OthersFalse(a, c, v)
  }

  lemma WitnessRest(a: Assignment, c: Clause, v: nat, w: Literal)
    requires Clean(c) && w in c && w.variable == v && Mentions(c, v)
    ensures WitnessFirst(c, v) != [] && WitnessFirst(c, v)[0] == w
    ensures RestFalse(a, WitnessFirst(c, v), 1) <==> OthersFalse(a, c, v)
  {
    var e, s := WitnessFirst(c, v), Slot(c, v);
    CleanPolarity(c, c[s], w);
    if RestFalse(a, e, 1) {
      forall l | l in c && l.variable != v ensures !NotFalse(a, l) {
        var i :| 0 <= i < |c| && c[i] == l;
        assert e[if i == 0 then s else i] == l;
      }
    }
    if OthersFalse(a, c, v) {
      forall k | 1 <= k < |e| ensures !NotFalse(a, e[k]) {
        var i := if k == s then 0 else k;
        assert e[k] == c[i] && i != s;
        assert c[i] in c && c[i].variable != v;
      }
    }
  }

  lemma OthersIgnore(a: Assignment, c: Clause, v: nat, b: bool)
    ensures OthersFalse(a[v := b], c, v) <==> OthersFalse(a, c, v)
  {
  }

  lemma OthersFalseLast(a: Assignment, cs: seq<Clause>, v: nat)
    requires cs != []
    ensures SomeOthersFalse(a, cs, v) <==> SomeOthersFalse(a, cs[..|cs| - 1], v) || OthersFalse(a, cs[|cs| - 1], v)
  {
    assert cs == cs[..|cs| - 1] + [cs[|cs| - 1]];
  }

  /** Going through the stored side sets the variable exactly when one of its clauses needs it. */
  lemma {:induction false} ExtendWitnesses(a: Assignment, cs: seq<Clause>, v: nat, w: Literal, b: bool)
    requires w.variable == v && forall i :: 0 <= i < |cs| ==> Clean(cs[i]) && w in cs[i] && Mentions(cs[i], v)
    ensures Extend(a[v := b], Witnesses(cs, v)) == a[v := if SomeOthersFalse(a, cs, v) then w.positive else b]
    decreases |cs|
  {
    if cs == [] {
      assert Witnesses(cs, v) == [];
    } else {
      hide OthersFalse, SomeOthersFalse, Mentions, RestFalse;
      var c, rest := cs[|cs| - 1], cs[..|cs| - 1];
      WitnessRest(a[v := b], c, v, w);
      OthersIgnore(a, c, v, b);
      var d := if OthersFalse(a, c, v) then w.positive else b;
      assert ExtendOne(a[v := b], WitnessFirst(c, v)) == a[v := d];
      ExtendWitnesses(a, rest, v, w, d);
      assert Witnesses(cs, v)[..|Witnesses(cs, v)| - 1] == Witnesses(rest, v);
      OthersFalseLast(a, cs, v);
    }
  }

  lemma ExtendSide(a: Assignment, cs: seq<Clause>, v: nat, w: Literal)
    requires w.variable == v && forall i :: 0 <= i < |cs| ==> Clean(cs[i]) && w in cs[i] && Mentions(cs[i], v)
    ensures Extend(a, Witnesses(cs, v) + [[w.Negated()]]) ==
              a[v := if SomeOthersFalse(a, cs, v) then w.positive else !w.positive]
  {
    var es := Witnesses(cs, v) + [[w.Negated()]];
    assert es[..|es| - 1] == Witnesses(cs, v);
    assert ExtendOne(a, es[|es| - 1]) == a[v := !w.positive];
    ExtendWitnesses(a, cs, v, w, !w.positive);
  }

  lemma SatisfiedWhen(a: Assignment, c: Clause, l: Literal)
    requires l in c && l.variable in a && a[l.variable] == l.positive
    ensures SatisfiedBy(a, c)
  {
    var i :| 0 <= i < |c| && c[i] == l;
  }

  /** All clauses of the stored side and of the other one are satisfied afterwards. */
  lemma SideSatisfied(a: Assignment, kept: seq<Clause>, other: seq<Clause>, v: nat, w: Literal, c: Clause)
    requires w.variable == v
    requires forall i :: 0 <= i < |kept| ==> Clean(kept[i]) && w in kept[i]
    requires forall i :: 0 <= i < |other| ==> Clean(other[i]) && w.Negated() in other[i]
    requires forall p, q :: p in kept && q in other && !Clash(p, q, v) ==>
        exists r :: IsResolvent(p, q, v, r) && SatisfiedBy(a, r)
    requires c in kept || c in other
    requires forall l :: l in c && l.variable != v ==> l.variable in a
    ensures SatisfiedBy(a[v := if SomeOthersFalse(a, kept, v) then w.positive else !w.positive], c)
  {
    var b := a[v := if SomeOthersFalse(a, kept, v) then w.positive else !w.positive];
    if !OthersFalse(a, c, v) {
      var l :| l in c && l.variable != v && NotFalse(a, l);
      SatisfiedWhen(b, c, l);
    } else if c in kept {
      SatisfiedWhen(b, c, w);
    } else if SomeOthersFalse(a, kept, v) {
      var p :| p in kept && OthersFalse(a, p, v);
      NoResolventFalse(a, p, c, v);
      assert false;
    } else {
      SatisfiedWhen(b, c, w.Negated());
    }
  }

  lemma OneNotFalse(a: Assignment, l: Literal)
    ensures NotFalse(a, l) || NotFalse(a, l.Negated())
  {
  }

  /** Two clauses that are both false apart from `v` have a resolvent, and it is false. */
  lemma NoResolventFalse(a: Assignment, p: Clause, q: Clause, v: nat)
    requires OthersFalse(a, p, v) && OthersFalse(a, q, v)
    ensures !Clash(p, q, v)
    ensures forall r :: IsResolvent(p, q, v, r) ==> !SatisfiedBy(a, r)
  {
    forall l | l in p && l.variable != v ensures l.Negated() !in q {
      OneNotFalse(a, l);
    }
    forall r: Clause | IsResolvent(p, q, v, r) ensures !SatisfiedBy(a, r) {
      forall i | 0 <= i < |r| ensures !(r[i].variable in a && a[r[i].variable] == r[i].positive) {
        assert r[i] in r;
        assert !NotFalse(a, r[i]);
      }
    }
  }

  /** A model of the clauses after an elimination, extended by the stored entries, is one of the
      clauses before. */
  lemma EliminationBack(s: State, u: State, v: nat, pos: seq<Clause>, neg: seq<Clause>, a: Assignment)
    requires WellFormed(s) && Eliminates(s, u, v, pos, neg) && AllSatisfiedBy(a, u.f)
    requires forall c, l :: c in s.f && l in c && l.variable != v ==> l.variable in a
    ensures AllSatisfiedBy(Extend(a, Stored(v, pos, neg)), s.f)
    ensures forall x :: x in a || x == v ==> x in Extend(a, Stored(v, pos, neg))
  {
    var w := Literal(v, !(|pos| > |neg|));
    var kept, other := if |pos| > |neg| then neg else pos, if |pos| > |neg| then pos else neg;
    ExtendSide(a, kept, v, w);
    var b := Extend(a, Stored(v, pos, neg));
    SidesMeet(s.f, u.f, v, pos, neg, kept, other, a);
    hide Resolved, Clash, IsResolvent, Clean, OthersFalse;
    forall c: Clause | c in s.f ensures SatisfiedBy(b, c) {
      if Mentions(c, v) {
        SideSatisfied(a, kept, other, v, w, c);
      } else {
        OtherSatisfied(a, b, s.f, u.f, v, pos, neg, b[v], c);
      }
    }
  }

  /** Two clauses of the two sides that do not clash have a satisfied resolvent. */
  lemma SidesMeet(f: set<Clause>, g: set<Clause>, v: nat, pos: seq<Clause>, neg: seq<Clause>, kept: seq<Clause>,
                  other: seq<Clause>, a: Assignment)
    requires Resolved(f, g, v, pos, neg) && AllSatisfiedBy(a, g)
    requires (kept == pos && other == neg) || (kept == neg && other == pos)
    ensures forall p, q :: p in kept && q in other && !Clash(p, q, v) ==>
        exists r :: IsResolvent(p, q, v, r) && SatisfiedBy(a, r)
  {
    hide Clash, SatisfiedBy;
    forall p, q | p in kept && q in other && !Clash(p, q, v)
      ensures exists r :: IsResolvent(p, q, v, r) && SatisfiedBy(a, r)
    {
      ClashSymmetric(p, q, v);
      if kept == pos && other == neg {
        var c :| c in g && IsResolvent(p, q, v, c);
      } else {
        var c :| c in g && IsResolvent(q, p, v, c);
        assert IsResolvent(p, q, v, c);
      }
    }
  }

  /** A clause without the variable stays, and stays satisfied. */
  lemma OtherSatisfied(a: Assignment, b: Assignment, f: set<Clause>, g: set<Clause>, v: nat, pos: seq<Clause>,
                       neg: seq<Clause>, x: bool, c: Clause)
    requires Resolved(f, g, v, pos, neg) && AllSatisfiedBy(a, g) && c in f && !Mentions(c, v) && b == a[v := x]
    ensures SatisfiedBy(b, c)
  {
    assert c in g && SatisfiedBy(a, c);
    var i :| 0 <= i < |c| && c[i].variable in a && a[c[i].variable] == c[i].positive;
    assert c[i].variable != v;
  }

  lemma ClashSymmetric(p: Clause, q: Clause, v: nat)
    ensures Clash(p, q, v) <==> Clash(q, p, v)
  {
    if Clash(p, q, v) {
      var l :| l in p && l.variable != v && l.Negated() in q;
      assert l.Negated().Negated() == l;
    }
    if Clash(q, p, v) {
      var l :| l in q && l.variable != v && l.Negated() in p;
      assert l.Negated().Negated() == l;
    }
  }

  /** Values for everything in `all` that is not eliminated. */
  ghost predicate Total(a: Assignment, all: set<nat>, s: State) {
    forall v :: v in all && v !in s.gone ==> v in a
  }

  ghost predicate Within(ss: seq<State>, all: set<nat>) {
    forall i, c, l :: 0 <= i < |ss| && c in ss[i].f && l in c ==> l.variable in all
  }

  lemma RunPrefix(ss: seq<State>)
    requires Run(ss) && |ss| > 1
    ensures Run(ss[..|ss| - 1]) && Step(ss[|ss| - 2], ss[|ss| - 1])
    ensures forall all :: Within(ss, all) ==> Within(ss[..|ss| - 1], all)
  {
    var rest := ss[..|ss| - 1];
    forall i | 0 <= i < |rest| - 1 ensures Step(rest[i], rest[i + 1]) {
      assert Step(ss[i], ss[i + 1]);
    }
    assert Step(ss[|ss| - 2], ss[|ss| - 2 + 1]);
  }

  /** One step back: the model and what it covers. */
  lemma StepBack(s: State, u: State, all: set<nat>, a: Assignment) returns (b: Assignment)
    requires Step(s, u) && Total(a, all, u) && AllSatisfiedBy(a, u.f)
    requires forall c, l :: c in s.f && l in c ==> l.variable in all
    requires forall c, l :: c in u.f && l in c ==> l.variable in all
    ensures Total(b, all, s) && AllSatisfiedBy(b, s.f) && Extend(a, u.entries) == Extend(b, s.entries)
  {
    if Rewrites(s, u) {
      RewriteBack(s, u, a);
      b := a;
    } else {
      var v, pos, neg :| Eliminates(s, u, v, pos, neg);
      EliminationBack(s, u, v, pos, neg, a);
      b := Extend(a, Stored(v, pos, neg));
      ExtendJoin(a, s.entries, Stored(v, pos, neg));
    }
  }

  /** Any run: a model of the last clauses, walked back through all stored entries, is a model of
      the first ones. */
  lemma {:induction false} RunExtends(ss: seq<State>, all: set<nat>, a: Assignment)
    requires Run(ss) && Within(ss, all)
    requires Total(a, all, ss[|ss| - 1]) && AllSatisfiedBy(a, ss[|ss| - 1].f)
    ensures AllSatisfiedBy(Extend(a, ss[|ss| - 1].entries), ss[0].f)
    decreases |ss|
  {
    if |ss| > 1 {
      RunPrefix(ss);
      hide Step, Total, AllSatisfiedBy;
      var b := StepBack(ss[|ss| - 2], ss[|ss| - 1], all, a);
      RunExtends(ss[..|ss| - 1], all, b);
    }
  }

  /** Every clause of a later state follows from the first ones. */
  lemma {:induction false} RunImplied(ss: seq<State>, m: Model)
    requires Run(ss) && Models(m, ss[0].f)
    ensures Models(m, ss[|ss| - 1].f)
    decreases |ss|
  {
    if |ss| > 1 {
      var n := |ss| - 1;
      var rest := ss[..n];
      RunPrefix(ss);
      RunImplied(rest, m);
      var s, u := ss[n - 1], ss[n];
      if !Rewrites(s, u) {
        var v, pos, neg :| Eliminates(s, u, v, pos, neg);
        forall c | c in u.f ensures Satisfies(m, c) {
          if !(c in s.f && !Mentions(c, v)) {
            var p, q :| p in pos && q in neg && !Clash(p, q, v) && IsResolvent(p, q, v, c);
            ResolventImplied(p, q, v, c, m);
          }
        }
      }
    }
  }

  /** Elimination and rewriting never change whether there is a model. */
  lemma RunEquisatisfiable(ss: seq<State>, all: set<nat>)
    requires Run(ss) && Within(ss, all)
    ensures Satisfiable(ss[0].f) <==> Satisfiable(ss[|ss| - 1].f)
  {
    if m :| Models(m, ss[0].f) {
      RunImplied(ss, m);
    }
    var last := ss[|ss| - 1].f;
    if m :| Models(m, last) {
      var a := Restrict(m, all);
      forall c: Clause | c in last ensures SatisfiedBy(a, c) {
        var l :| l in c && Holds(m, l);
        SatisfiedWhen(a, c, l);
      }
      RunExtends(ss, all, a);
      FromAssignment(Extend(a, ss[|ss| - 1].entries), ss[0].f);
    }
  }

  ghost function Restrict(m: Model, all: set<nat>): Assignment { map v: nat | v in all :: m(v) }

  lemma FromAssignment(a: Assignment, f: set<Clause>)
    requires AllSatisfiedBy(a, f)
    ensures Models(ToModel(a), f)
  {
    forall c: Clause | c in f ensures Satisfies(ToModel(a), c) {
      var i :| 0 <= i < |c| && c[i].variable in a && a[c[i].variable] == c[i].positive;
      assert c[i] in c && Holds(ToModel(a), c[i]);
    }
  }
}
