/** Why what the group keeps is a symmetry. */
module FormulaSymmetry {
  import opened Logic
  import opened Lookup
  import opened Soundness
  import opened Permutations
  import opened Automorphism
  import opened CNFGraphs
  import G = Groups

  /** What `OnAutomorphism` establishes about the tables it builds. */
  ghost predicate Tabulates(image: map<Literal, Literal>, inverse: map<Literal, Literal>, aut: seq<nat>, n: nat)
    requires KeepsLiterals(aut, n)
  {
    (forall l :: l in image <==> l.variable < n && aut[LiteralToNode(l, n)] != LiteralToNode(l, n)) &&
    (forall l :: l in image ==> LiteralToNode(image[l], n) == aut[LiteralToNode(l, n)]) &&
    inverse.Keys == image.Keys && MutuallyInverse(image, inverse)
  }

  lemma ImageIsSent(image: map<Literal, Literal>, inverse: map<Literal, Literal>, aut: seq<nat>, n: nat, l: Literal)
    requires KeepsLiterals(aut, n) && Tabulates(image, inverse, aut, n) && l.variable < n
    ensures Sends(aut, n, l) == if l in image then image[l] else l
  {
    NodesAreLiterals(n);
    if l in image {
      assert Into(image, inverse, l);
      assert image[l] in inverse.Keys;
    }
  }

  /** The filter of the group makes the automorphism commute with negation everywhere. */
  lemma FilterKeepsNegation(cycles: seq<Literal>, image: map<Literal, Literal>, inverse: map<Literal, Literal>,
                            aut: seq<nat>, n: nat)
    requires KeepsLiterals(aut, n) && Tabulates(image, inverse, aut, n)
    requires G.Consistent(cycles, image) && forall l :: l in image <==> l in cycles
    ensures KeepsNegation(aut, n)
  {
    forall l: Literal | l.variable < n ensures Sends(aut, n, l.Negated()) == Sends(aut, n, l).Negated() {
      ImageIsSent(image, inverse, aut, n, l);
      ImageIsSent(image, inverse, aut, n, l.Negated());
      assert l in cycles ==> G.KeepsSign(image, l);
      assert l.Negated() in cycles ==> G.KeepsSign(image, l.Negated());
      assert l.Negated().Negated() == l;
    }
  }

  lemma InverseKeepsNegation(aut: seq<nat>, inv: seq<nat>, n: nat)
    requires Inverts(aut, inv) && KeepsLiterals(aut, n) && KeepsLiterals(inv, n) && KeepsNegation(aut, n)
    ensures KeepsNegation(inv, n)
  {
    forall k: Literal | k.variable < n ensures Sends(inv, n, k.Negated()) == Sends(inv, n, k).Negated() {
      var l := Sends(inv, n, k);
      SendsBack(aut, inv, n, k);
      assert Sends(aut, n, l.Negated()) == k.Negated();
      SendsBack(inv, aut, n, l.Negated());
    }
  }

  /** The inverse table is the inverse automorphism. */
  lemma InverseIsSent(image: map<Literal, Literal>, inverse: map<Literal, Literal>, aut: seq<nat>, inv: seq<nat>,
                      n: nat, l: Literal)
    requires Inverts(aut, inv) && KeepsLiterals(aut, n) && KeepsLiterals(inv, n) && Tabulates(image, inverse, aut, n)
    requires l.variable < n
    ensures Sends(inv, n, l) == if l in inverse then inverse[l] else l
  {
    SendsBack(aut, inv, n, l);
    var x := if l in inverse then inverse[l] else l;
    if l in inverse {
      assert Into(inverse, image, l);
      assert image[x] == l;
    } else {
      assert l !in image.Keys;
    }
    ImageIsSent(image, inverse, aut, n, x);
    SendsInjective(aut, inv, n, x, Sends(inv, n, l));
  }

  /** The clauses that say something. */
  function Proper(clauses: seq<Clause>): set<Clause> { set c | c in clauses && !BinaryTautology(c) }

  /** Leaving out clauses of the form x or not x changes no model, whatever is added. */
  lemma SameWithoutTautologies(clauses: seq<Clause>, more: set<Clause>, m: Model)
    ensures Models(m, (set c | c in clauses) + more) <==> Models(m, Proper(clauses) + more)
  {
    if Models(m, Proper(clauses) + more) {
      forall c | c in (set c | c in clauses) + more ensures Satisfies(m, c) {
        if c !in Proper(clauses) + more {
          assert BinaryTautology(c) && c[0] in c && c[1] in c;
          assert Holds(m, c[0]) || Holds(m, c[1]);
        }
      }
    }
  }

  /** Bliss or saucy reports an automorphism of the graph; the permutation built from it, once
      it passes the filter, maps the clauses that say something onto themselves. */
  lemma GeneratorIsSymmetry(g: Generator, clauses: seq<Clause>, n: nat, adjacency: seq<seq<nat>>, colors: seq<nat>,
                            aut: seq<nat>, inv: seq<nat>, cycles: seq<Literal>, image: map<Literal, Literal>)
    requires Encodes(adjacency, colors, clauses, n) && OverVariables(clauses, n)
    requires PreservesGraph(adjacency, colors, aut) && Inverts(aut, inv)
    requires KeepsLiterals(aut, n) && Tabulates(image, g.inverse, aut, n)
    requires G.Consistent(cycles, image) && forall l :: l in image <==> l in cycles
    ensures IsSymmetry(g, Proper(clauses))
  {
    hide Encodes, BinaryTautology, KeepsNegation, Tabulates, MutuallyInverse, G.Consistent;
    InversePreserves(adjacency, colors, aut, inv);
    ColorsKeepLiterals(adjacency, colors, clauses, n, inv);
    FilterKeepsNegation(cycles, image, g.inverse, aut, n);
    InverseKeepsNegation(aut, inv, n);
    var f := Proper(clauses);
    forall c | c in f ensures HasImage(g, f, c) {
      var d := AutomorphismMapsClauses(adjacency, colors, clauses, n, inv, aut, c);
      forall l | l in c ensures g.InverseOf(l) == Sends(inv, n, l) {
        InverseIsSent(image, g.inverse, aut, inv, n, l);
      }
      assert IsImageOf(g, c, d);
    }
  }
}
