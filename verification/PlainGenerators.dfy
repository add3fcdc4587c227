/** Generators given by tables. */
module PlainGenerators {
  // For concrete examples.  They keep signs and move every variable; the order is that of the variables.

  import opened Logic
  import opened LexLeader
  import opened Lookup
  import opened Soundness

  ghost predicate Moving(images: seq<nat>) {
    forall v :: 0 <= v < |images| ==> images[v] < |images| && images[v] != v
  }

  /** The inverse sends variable `v` to `images[v]`. */
  ghost predicate IsPlain(g: Generator, images: seq<nat>) {
    Moving(images) && g.mode == TRUE_LESS_FALSE && |g.order| == |g.ranks| == |g.lookup| == |images| &&
    (forall v :: 0 <= v < |images| ==>
       g.order[v] == v && g.ranks[v] == v && g.lookup[v] == Pos(v) && Pos(v) in g.inverse) &&
    forall l: Literal {:trigger g.InverseOf(l)} :: l.variable < |images| ==>
      g.InverseOf(l) == Literal(images[l.variable], l.positive)
  }

  function Pos(v: nat): Literal { Literal(v, true) }

  function Neg(v: nat): Literal { Literal(v, false) }

  ghost function LiteralsBelow(n: nat): (s: set<Literal>)
    ensures forall l :: l in s <==> l.variable < n
  {
    set v: nat, b: bool | v < n :: Literal(v, b)
  }

  lemma PlainInverse(images: seq<nat>, inverse: map<Literal, Literal>)
    requires Moving(images)
    requires inverse == map l | l in LiteralsBelow(|images|) :: Literal(images[l.variable], l.positive)
    ensures ValidInverse(inverse, |images|)
  {
    forall l | l in inverse ensures inverse[l] == Literal(images[l.variable], l.positive) && l.variable < |images| {
    }
    forall l ensures MovesImage(inverse, l) {
      assert l in inverse ==> inverse[l].variable < |images|;
    }
    forall l, k | l in inverse && Opposite(l, k) ensures k in inverse && Opposite(inverse[l], inverse[k]) {
      assert k.variable < |images|;
    }
  }

  lemma Plain(images: seq<nat>) returns (g: Generator)
    requires Moving(images)
    ensures IsPlain(g, images) && ValidGenerator(g)
    ensures forall l :: l in g.inverse ==> l.variable < |images|
  {
    var n := |images|;
    var inverse := map l | l in LiteralsBelow(n) :: Literal(images[l.variable], l.positive);
    g := Generator(inverse, seq(n, (i: nat) => i), seq(n, (i: nat) => i), TRUE_LESS_FALSE,
                   seq(n, (i: nat) => Literal(i, true)));
    assert IsPlain(g, images);
    assert ValidOrder(g.order, g.ranks);
    assert ValidLookup(g) by {
      forall v: nat | v < n ensures Literal(v, true) in g.lookup {
        assert g.lookup[v] == Literal(v, true);
      }
    }
    PlainInverse(images, inverse);
  }

  lemma PairValue(g: Generator, images: seq<nat>, p: Partial, i: nat)
    requires IsPlain(g, images) && i < |images|
    ensures g.lookup[i] == Pos(i) && Pos(i) in g.inverse && g.inverse[Pos(i)] == Pos(images[i])
    ensures PairAgrees(g, p, i) <==> i in p && images[i] in p && p[i] == p[images[i]]
  {
    assert g.InverseOf(Pos(i)) == Pos(images[i]);
  }

  /** The pairs before `k` agree, that at `k` differs with the earlier variable false. */
  ghost predicate Differs(images: seq<nat>, p: Partial, k: nat) {
    k < |images| && k in p && images[k] in p && p[k] != p[images[k]] &&
    (forall i :: 0 <= i < k ==> i in p && images[i] in p && p[i] == p[images[i]]) &&
    !p[if k <= images[k] then k else images[k]]
  }

  lemma ReducerVerdict(g: Generator, p: Partial, k: nat)
    requires ValidGenerator(g) && k < |g.lookup| && g.lookup[k] in g.inverse && g.mode == TRUE_LESS_FALSE
    requires Assigned(p, g.lookup[k]) && Assigned(p, g.inverse[g.lookup[k]])
    requires !TrueIn(p, g.Leq(g.lookup[k], g.inverse[g.lookup[k]]))
    ensures Verdict(g, p, k) == REDUCER
  {
  }

  lemma ReducesAt(g: Generator, images: seq<nat>, p: Partial, k: nat)
    requires ValidGenerator(g) && IsPlain(g, images) && Differs(images, p, k)
    ensures StopsAt(g, p, 0, k) && Verdict(g, p, k) == REDUCER && Moves(g.inverse, k) && DecidedAt(g, p, k)
  {
    forall i | 0 <= i <= k ensures PairAgrees(g, p, i) <==> i < k {
      PairValue(g, images, p, i);
    }
    PairValue(g, images, p, k);
    ReducerVerdict(g, p, k);
  }
}
