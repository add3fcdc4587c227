/** Why a symmetry-breaking clause may be added. */
module Soundness {
  // The argument needs the element to come no later in the order than its inverse at the lookup
  // index; involutions guarantee that, longer cycles do not.

  import opened Logic
  import opened LexLeader
  import opened Lookup

  /** The inverse of the permutation maps every clause of `f` onto a clause of `f`. */
  ghost predicate IsSymmetry(g: Generator, f: set<Clause>) {
    forall c {:trigger HasImage(g, f, c)} :: c in f ==> HasImage(g, f, c)
  }

  ghost predicate HasImage(g: Generator, f: set<Clause>, c: Clause) {
    exists d :: d in f && IsImageOf(g, c, d)
  }

  ghost predicate IsImageOf(g: Generator, c: Clause, d: Clause) {
    forall l :: l in d <==> exists x :: x in c && g.InverseOf(x) == l
  }

  /** The model that gives a literal the value `m` gives to its inverse. */
  function Image(g: Generator, m: Model): Model {
    (v: nat) => Holds(m, g.InverseOf(Literal(v, true)))
  }

  lemma ImageHolds(g: Generator, m: Model, l: Literal)
    requires ValidInverse(g.inverse, |g.order|)
    ensures Holds(Image(g, m), l) == Holds(m, g.InverseOf(l))
  {
    var positive := Literal(l.variable, true);
    if !l.positive {
      assert Opposite(l, positive) && Opposite(positive, l);
    }
  }

  lemma ImageIsModel(g: Generator, f: set<Clause>, m: Model)
    requires ValidInverse(g.inverse, |g.order|)
    requires IsSymmetry(g, f) && Models(m, f)
    ensures Models(Image(g, m), f)
  {
    forall c | c in f ensures Satisfies(Image(g, m), c) {
      assert HasImage(g, f, c);
      var d :| d in f && IsImageOf(g, c, d);
      assert Satisfies(m, d);
      var l :| l in d && Holds(m, l);
      var x :| x in c && g.InverseOf(x) == l;
      ImageHolds(g, m, x);
    }
  }

  /** The guard on which `updateState` depends: the element at the lookup index is not later
      in the order than its inverse. */
  ghost predicate Aligned(g: Generator, k: nat)
    requires ValidGenerator(g) && k < |g.lookup|
  {
    g.Leq(g.lookup[k], g.inverse[g.lookup[k]]) == g.lookup[k]
  }

  /** The walk has come to `k`, and the pair there is assigned and differs. */
  ghost predicate DecidedAt(g: Generator, p: Partial, k: nat) {
    k < |g.lookup| && g.lookup[k] in g.inverse && PairsAgree(g, p, k) && !PairAgrees(g, p, k) &&
    Assigned(p, g.lookup[k]) && Assigned(p, g.inverse[g.lookup[k]])
  }

  lemma AgreesBeforeLookup(g: Generator, k: nat, m: Model)
    requires ValidGenerator(g) && k < |g.lookup|
    requires forall i :: 0 <= i < k ==> ModelAgrees(g, m, i)
    ensures AgreeBelow(g.order, Image(g, m), m, g.ranks[g.lookup[k].variable])
  {
    var r := g.ranks[g.lookup[k].variable];
    forall j | 0 <= j < r ensures Image(g, m)(g.order[j]) == m(g.order[j]) {
      var l := Literal(g.order[j], true);
      if Moves(g.inverse, g.order[j]) {
        var i :| 0 <= i < |g.lookup| && g.lookup[i] == l;
        assert i < k;
        assert ModelAgrees(g, m, i);
      }
    }
  }

  ghost predicate ModelAgrees(g: Generator, m: Model, i: int) {
    0 <= i < |g.lookup| && Holds(m, g.lookup[i]) == Holds(m, g.InverseOf(g.lookup[i]))
  }

  lemma ExtensionAgrees(g: Generator, p: Partial, k: nat, m: Model)
    requires PairsAgree(g, p, k) && Extends(m, p)
    ensures forall i :: 0 <= i < k ==> ModelAgrees(g, m, i)
  {
    forall i | 0 <= i < k ensures ModelAgrees(g, m, i) {
      assert PairAgrees(g, p, i);
    }
  }

  /** What the two verdicts say about a model and its image, in both alignments. */
  lemma VerdictCompares(g: Generator, p: Partial, k: nat, m: Model)
    requires ValidGenerator(g) && DecidedAt(g, p, k) && Extends(m, p)
    ensures Verdict(g, p, k) == INACTIVE || Verdict(g, p, k) == REDUCER
    ensures var r := g.ranks[g.lookup[k].variable];
            if (Verdict(g, p, k) == REDUCER) == Aligned(g, k)
            then LessAt(g.order, g.mode, Image(g, m), m, r)
            else LessAt(g.order, g.mode, m, Image(g, m), r)
  {
    ExtensionAgrees(g, p, k, m);
    AgreesBeforeLookup(g, k, m);
    var element := g.lookup[k];
    ImageHolds(g, m, element);
    assert Holds(m, element) == TrueIn(p, element);
    assert Holds(m, g.inverse[element]) == TrueIn(p, g.inverse[element]);
  }

  /** The total model that fills a partial assignment with false. */
  function Completion(p: Partial): Model { v => v in p && p[v] }

  /** REDUCER means "every completion is lexicographically greater than its image" if and only
      if the element is not later in the order than its inverse; otherwise every completion
      is smaller, and the verdict is wrong for all of them. */
  lemma ReducerVerdictExact(g: Generator, p: Partial, k: nat)
    requires ValidGenerator(g) && DecidedAt(g, p, k) && Verdict(g, p, k) == REDUCER
    ensures (forall m :: Extends(m, p) ==> LexLess(g.order, g.mode, Image(g, m), m)) <==> Aligned(g, k)
    ensures !Aligned(g, k) ==> forall m :: Extends(m, p) ==> LexLess(g.order, g.mode, m, Image(g, m))
  {
    forall m | Extends(m, p)
      ensures if Aligned(g, k) then LexLess(g.order, g.mode, Image(g, m), m)
              else LexLess(g.order, g.mode, m, Image(g, m))
    {
      VerdictCompares(g, p, k, m);
    }
    if !Aligned(g, k) {
      var m := Completion(p);
      assert Extends(m, p);
      LexLessAsymmetric(g.order, g.mode, m, Image(g, m));
    }
  }

  // ---------------------------------------------------------------- one variable of the pair is open

  /** Exactly one literal of the pair is assigned. */
  predicate HalfAssigned(g: Generator, p: Partial, k: nat) {
    k < |g.lookup| && g.lookup[k] in g.inverse && Assigned(p, g.lookup[k]) != Assigned(p, g.inverse[g.lookup[k]])
  }

  /** The variable of the other one. */
  function Open(g: Generator, p: Partial, k: nat): nat
    requires HalfAssigned(g, p, k)
  {
    if Assigned(p, g.lookup[k]) then g.inverse[g.lookup[k]].variable else g.lookup[k].variable
  }

  /** If the open variable gets the value `b`, the status reduces. */
  ghost predicate WouldReduce(g: Generator, p: Partial, k: nat, b: bool)
    requires ValidGenerator(g) && HalfAssigned(g, p, k)
  {
    var q := p[Open(g, p, k) := b];
    DecidedAt(g, q, k) && Verdict(g, q, k) == REDUCER
  }

  /** What every total extension with that value is compared with its image. */
  ghost predicate AllExceed(g: Generator, p: Partial, k: nat, b: bool)
    requires ValidGenerator(g) && HalfAssigned(g, p, k)
  {
    forall m: Model :: Extends(m, p) && m(Open(g, p, k)) == b ==>
      var r := g.ranks[g.lookup[k].variable];
      if Aligned(g, k) then LessAt(g.order, g.mode, Image(g, m), m, r) else LessAt(g.order, g.mode, m, Image(g, m), r)
  }

  lemma OpenedAgrees(g: Generator, p: Partial, k: nat, b: bool)
    requires ValidGenerator(g) && StopsAt(g, p, 0, k) && HalfAssigned(g, p, k)
    ensures PairsAgree(g, p[Open(g, p, k) := b], k)
    ensures Assigned(p[Open(g, p, k) := b], g.lookup[k]) && Assigned(p[Open(g, p, k) := b], g.inverse[g.lookup[k]])
  {
    var q := p[Open(g, p, k) := b];
    forall i | 0 <= i < k ensures PairAgrees(g, q, i) {
      assert PairAgrees(g, p, i);
    }
  }

  /** Reducing for that value is the same as: every extension with it compares the wrong way. */
  lemma WouldReduceExactly(g: Generator, p: Partial, k: nat, b: bool)
    requires ValidGenerator(g) && StopsAt(g, p, 0, k) && HalfAssigned(g, p, k)
    ensures WouldReduce(g, p, k, b) <==> AllExceed(g, p, k, b)
  {
    var v := Open(g, p, k);
    var q := p[v := b];
    OpenedAgrees(g, p, k, b);
    if WouldReduce(g, p, k, b) {
      forall m: Model | Extends(m, p) && m(v) == b ensures Extends(m, q) {
      }
      forall m: Model | Extends(m, p) && m(v) == b
        ensures var r := g.ranks[g.lookup[k].variable];
                if Aligned(g, k) then LessAt(g.order, g.mode, Image(g, m), m, r)
                else LessAt(g.order, g.mode, m, Image(g, m), r)
      {
        VerdictCompares(g, q, k, m);
      }
    }
    if AllExceed(g, p, k, b) {
      var m := Completion(q);
      assert Extends(m, q) && m(v) == b;
      forall x | x in p ensures m(x) == p[x] {
        assert x != v;
      }
      ExceedsDecides(g, q, k, m);
    }
  }

  lemma ExceedsDecides(g: Generator, q: Partial, k: nat, m: Model)
    requires ValidGenerator(g) && k < |g.lookup| && g.lookup[k] in g.inverse && Extends(m, q) && PairsAgree(g, q, k)
    requires Assigned(q, g.lookup[k]) && Assigned(q, g.inverse[g.lookup[k]])
    requires var r := g.ranks[g.lookup[k].variable];
             if Aligned(g, k) then LessAt(g.order, g.mode, Image(g, m), m, r)
             else LessAt(g.order, g.mode, m, Image(g, m), r)
    ensures DecidedAt(g, q, k) && Verdict(g, q, k) == REDUCER
  {
    var element := g.lookup[k];
    ImageHolds(g, m, element);
    assert Holds(m, element) == TrueIn(q, element) && Holds(m, g.inverse[element]) == TrueIn(q, g.inverse[element]);
    assert g.order[g.ranks[element.variable]] == element.variable;
    assert Holds(Image(g, m), element) != Holds(m, element);
    VerdictCompares(g, q, k, m);
  }

  /** FORCE_LEX_LEADER means that one variable of the pair is open and one of its values would make the
      status reduce; ACTIVE that nothing is decided yet and no value of a single open variable would. */
  lemma ForcedExactly(g: Generator, p: Partial, k: nat)
    requires ValidGenerator(g) && StopsAt(g, p, 0, k)
    ensures Verdict(g, p, k) == FORCE_LEX_LEADER <==> HalfAssigned(g, p, k) && exists b :: WouldReduce(g, p, k, b)
    ensures Verdict(g, p, k) == ACTIVE <==>
              k == |g.lookup| || (!Assigned(p, g.lookup[k]) && !Assigned(p, g.inverse[g.lookup[k]])) ||
              (HalfAssigned(g, p, k) && forall b :: !WouldReduce(g, p, k, b))
  {
    if k < |g.lookup| && HalfAssigned(g, p, k) {
      var element := g.lookup[k];
      var inverse := g.inverse[element];
      var known := if Assigned(p, element) then element else inverse;
      forall b ensures WouldReduce(g, p, k, b) ==> Verdict(g, p, k) == FORCE_LEX_LEADER {
        OpenedAgrees(g, p, k, b);
      }
      if Verdict(g, p, k) == FORCE_LEX_LEADER {
        var open := if known == element then inverse else element;
        var b := if TrueIn(p, known) then !open.positive else open.positive;
        OpenedAgrees(g, p, k, b);
        assert WouldReduce(g, p, k, b);
      }
    }
  }

  ghost predicate Involution(g: Generator) {
    forall l {:trigger g.inverse[l]} :: l in g.inverse ==> g.inverse[l] in g.inverse && g.inverse[g.inverse[l]] == l
  }

  /** When all cycles have length two, an undecided pair before the lookup index would have
      settled the pair at it: the element comes first whenever the pair differs. */
  lemma InvolutionAligned(g: Generator, p: Partial, k: nat)
    requires ValidGenerator(g) && Involution(g) && DecidedAt(g, p, k)
    ensures Aligned(g, k)
  {
    var element := g.lookup[k];
    var inverse := g.inverse[element];
    var first := Literal(inverse.variable, true);
    assert MovesImage(g.inverse, element) && Opposite(inverse, inverse.Negated());
    assert Moves(g.inverse, inverse.variable);
    var i :| 0 <= i < |g.lookup| && g.lookup[i] == first;
    assert first == inverse || Opposite(inverse, first);
    assert i < k ==> PairAgrees(g, p, i);
  }

  lemma FalsifiedEsbpAgrees(g: Generator, p: Partial, reason: nat, k: nat, c: Clause, m: Model)
    requires ValidGenerator(g) && DecidedAt(g, p, k) && IsEsbp(g, p, reason, k, c)
    requires !Satisfies(m, c)
    ensures forall i, v :: 0 <= i <= k && InPair(g, i, k, v) ==> v in p && m(v) == p[v]
  {
    forall i, v | 0 <= i <= k && InPair(g, i, k, v) ensures v in p && m(v) == p[v] {
      if i < k { assert PairAgrees(g, p, i); }
      var l := FalseLiteral(p, v);
      assert Forbids(g, p, reason, k, l);
      assert !Holds(m, l);
    }
  }

  /** What a model that falsifies the clause and its image say about the verdict: the values of the
      pairs up to the lookup index are all that counts. */
  lemma FalsifiedCompares(g: Generator, p: Partial, reason: nat, k: nat, c: Clause, m: Model)
    requires ValidGenerator(g) && DecidedAt(g, p, k) && Verdict(g, p, k) == REDUCER
    requires IsEsbp(g, p, reason, k, c) && !Satisfies(m, c)
    ensures if Aligned(g, k) then LexLess(g.order, g.mode, Image(g, m), m) else LexLess(g.order, g.mode, m, Image(g, m))
  {
    FalsifiedEsbpAgrees(g, p, reason, k, c, m);
    var used: Partial := map v | v in p && m(v) == p[v] :: p[v];
    forall i | 0 <= i <= k ensures PairAgrees(g, used, i) == PairAgrees(g, p, i) {
      if i < k { assert PairAgrees(g, p, i); }
      assert InPair(g, i, k, g.lookup[i].variable);
      assert InPair(g, i, k, g.inverse[g.lookup[i]].variable);
    }
    assert Verdict(g, used, k) == REDUCER by {
      assert InPair(g, k, k, g.lookup[k].variable);
      assert InPair(g, k, k, g.inverse[g.lookup[k]].variable);
    }
    assert PairsAgree(g, used, k) by {
      forall i | 0 <= i < k ensures PairAgrees(g, used, i) { assert PairAgrees(g, p, i); }
    }
    VerdictCompares(g, used, k, m);
  }

  /** The clause of a REDUCER verdict holds in every lexicographically least model, provided
      the element is not later than its inverse. */
  lemma EsbpHolds(g: Generator, f: set<Clause>, p: Partial, reason: nat, k: nat, c: Clause, m: Model)
    requires ValidGenerator(g) && IsSymmetry(g, f)
    requires DecidedAt(g, p, k) && Verdict(g, p, k) == REDUCER && Aligned(g, k)
    requires IsEsbp(g, p, reason, k, c)
    requires LexLeast(g.order, g.mode, f, m)
    ensures Satisfies(m, c)
  {
    if !Satisfies(m, c) {
      FalsifiedCompares(g, p, reason, k, c, m);
      ImageIsModel(g, f, m);
    }
  }

  /** The unit emitted for a pair x, not x at the head of the lookup order. */
  lemma InvertingUnitHolds(g: Generator, f: set<Clause>, m: Model)
    requires ValidGenerator(g) && IsSymmetry(g, f)
    requires IsInverting(g, 0)
    requires LexLeast(g.order, g.mode, f, m)
    ensures Satisfies(m, InvertingUnit(g, 0))
  {
    var unit := InvertingUnit(g, 0)[0];
    assert unit in InvertingUnit(g, 0);
    if !Holds(m, unit) {
      AgreesBeforeLookup(g, 0, m);
      ImageHolds(g, m, g.lookup[0]);
      ImageIsModel(g, f, m);
      assert LessAt(g.order, g.mode, Image(g, m), m, g.ranks[g.lookup[0].variable]);
      assert LexLess(g.order, g.mode, Image(g, m), m);
    }
  }

  // ---------------------------------------------------------------- shape of the clause

  /** Every literal of the clause is false: the solver receives a conflict. */
  lemma EsbpIsFalsified(g: Generator, p: Partial, reason: nat, k: nat, c: Clause)
    requires IsEsbp(g, p, reason, k, c)
    ensures forall l :: l in c ==> FalseIn(p, l)
  {
    forall l | l in c ensures FalseIn(p, l) {
      assert Forbids(g, p, reason, k, l);
    }
  }

  /** The clause has one literal for the reason and for every variable of a pair up to the lookup
      index, and no others. */
  lemma EsbpMentions(g: Generator, p: Partial, reason: nat, k: nat, c: Clause, v: nat)
    requires DecidedAt(g, p, k) && reason in p && IsEsbp(g, p, reason, k, c)
    ensures v == reason || (exists i :: InPair(g, i, k, v)) ==> v in p && FalseLiteral(p, v) in c
    ensures forall l :: l in c && l.variable == v ==>
              l == FalseLiteral(p, v) && (v == reason || exists i :: InPair(g, i, k, v))
  {
    if v == reason || exists i :: InPair(g, i, k, v) {
      if v != reason {
        var i :| InPair(g, i, k, v);
        if i < k { assert PairAgrees(g, p, i); }
      }
      assert Forbids(g, p, reason, k, FalseLiteral(p, v));
    }
    forall l | l in c && l.variable == v ensures Forbids(g, p, reason, k, l) {
    }
  }

  /** The clause has a single literal exactly when the first pair is x, not x and x is the
      reason; otherwise the reason's literal is in slot 1, and in slot 0 that of the first pair's
      first variable that is not the reason. */
  lemma EsbpSize(g: Generator, p: Partial, reason: nat, k: nat, c: Clause)
    requires ValidGenerator(g) && DecidedAt(g, p, k) && reason in p && IsEsbp(g, p, reason, k, c)
    ensures |c| == 1 <==> k == 0 && IsInverting(g, 0) && g.lookup[0].variable == reason
    ensures |c| != 1 ==> |c| >= 2 && c[1] == FalseLiteral(p, reason)
    ensures |c| != 1 ==> FirstOther(g, reason) in p && c[0] == FalseLiteral(p, FirstOther(g, reason))
  {
    var first, last := g.lookup[0], g.lookup[k];
    assert InPair(g, 0, k, first.variable) && InPair(g, 0, k, g.inverse[first].variable);
    assert InPair(g, k, k, last.variable);
    EsbpMentions(g, p, reason, k, c, reason);
    EsbpMentions(g, p, reason, k, c, first.variable);
    EsbpMentions(g, p, reason, k, c, g.inverse[first].variable);
    EsbpMentions(g, p, reason, k, c, last.variable);
    if |c| == 1 {
      assert c == [c[0]];
    } else {
      assert Forbids(g, p, reason, k, c[0]);
    }
    if k == 0 && IsInverting(g, 0) && first.variable == reason {
      var i := |c| - 1;
      assert Forbids(g, p, reason, k, c[0]) && Forbids(g, p, reason, k, c[i]);
    }
  }
}
