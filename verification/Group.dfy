/** The generators kept for symmetry breaking, with the permutations that move each variable. */
module Groups {
  import opened Logic
  import opened Permutations
  import Lookup

  /** Moved literals move with their negations, to opposite images. */
  ghost predicate Consistent(cycles: seq<Literal>, image: map<Literal, Literal>) {
    forall e {:trigger KeepsSign(image, e)} :: e in cycles ==> KeepsSign(image, e)
  }

  predicate KeepsSign(image: map<Literal, Literal>, e: Literal) {
    e in image && e.Negated() in image && image[e].Negated() == image[e.Negated()]
  }

  ghost predicate MovesVariable(cycles: seq<Literal>, v: nat) {
    exists l :: l in cycles && l.variable == v
  }

  /** Some literal of `v` is sent to its negation. */
  ghost predicate InvertsVariable(cycles: seq<Literal>, image: map<Literal, Literal>, v: nat) {
    exists l :: l in cycles && l.variable == v && l in image && image[l] == l.Negated()
  }

  /** The position of the cycle that holds position `k` of a closed cycle list. */
  lemma {:induction false} CycleOf(lim: seq<nat>, n: nat, k: nat) returns (c: nat)
    requires Limits(lim, n) && k < Start(lim, |lim|)
    ensures c < |lim| && Start(lim, c) <= k < lim[c]
  {
    c := |lim| - 1;
    while k < Start(lim, c)
      invariant c < |lim| && k < lim[c]
    {
      c := c - 1;
    }
  }

  lemma NothingFixed(cycles: seq<Literal>, lim: seq<nat>, image: map<Literal, Literal>,
                     inverse: map<Literal, Literal>, l: Literal)
    requires Tables(cycles, lim, image, inverse) && Start(lim, |lim|) == |cycles| && l in image
    ensures image[l] != l
  {
    var k :| 0 <= k < |cycles| && cycles[k] == l;
    var c := CycleOf(lim, |cycles|, k);
    assert image[cycles[k]] == cycles[if k + 1 == lim[c] then Start(lim, c) else k + 1];
    assert Start(lim, c) + 2 <= lim[c];
  }

  lemma InverseKeepsSign(cycles: seq<Literal>, image: map<Literal, Literal>, inverse: map<Literal, Literal>, l: Literal)
    requires Consistent(cycles, image) && MutuallyInverse(image, inverse)
    requires forall x :: x in image <==> x in cycles
    requires l in inverse
    ensures l.Negated() in inverse && inverse[l.Negated()] == inverse[l].Negated()
  {
    var x := inverse[l];
    assert Into(inverse, image, l);
    assert KeepsSign(image, x);
    assert Into(image, inverse, x.Negated());
    assert image[x] == l;
  }

  /** A permutation that passes the filter is what the symmetry statuses work with. */
  lemma ConsistentGivesInverse(p: Permutation, n: nat)
    requires p.Closed() && Consistent(p.cycles, p.image) && forall l :: l in p.cycles ==> l.variable < n
    ensures Lookup.ValidInverse(p.inverse, n)
    ensures forall v :: Lookup.Moves(p.inverse, v) <==> MovesVariable(p.cycles, v)
  {
    hide Tables, Consistent;
    var image, inverse := p.image, p.inverse;
    TablesFit(p.cycles, p.cyclesLim, image, inverse);
    forall l | l in inverse
      ensures l.variable < n && inverse[l].variable < n && inverse[l] != l
    {
      assert Into(inverse, image, l);
      NothingFixed(p.cycles, p.cyclesLim, image, inverse, inverse[l]);
    }
    forall l ensures Lookup.MovesImage(inverse, l) {
      assert Into(inverse, image, l);
    }
    forall l, k | l in inverse && Lookup.Opposite(l, k)
      ensures k in inverse && Lookup.Opposite(inverse[l], inverse[k])
    {
      InverseKeepsSign(p.cycles, image, inverse, l);
      assert k == l.Negated();
    }
    forall v | MovesVariable(p.cycles, v) ensures Lookup.Moves(inverse, v) {
      var l :| l in p.cycles && l.variable == v;
      InverseKeepsSign(p.cycles, image, inverse, l);
      assert l == Literal(v, true) || l.Negated() == Literal(v, true);
    }
  }

  /** The variables at positions `a` up to `b` of the cycle list. */
  ghost function VariablesIn(cycles: seq<Literal>, a: nat, b: nat): set<nat>
    requires b <= |cycles|
  {
    set i | a <= i < b :: cycles[i].variable
  }

  /** Those of them whose literal there is the negation of its predecessor. */
  ghost function InvertedIn(cycles: seq<Literal>, inverse: map<Literal, Literal>, a: nat, b: nat): set<nat>
    requires b <= |cycles|
  {
    set i | a <= i < b && cycles[i] in inverse && inverse[cycles[i]] == cycles[i].Negated() :: cycles[i].variable
  }

  lemma InvertedVariables(cycles: seq<Literal>, image: map<Literal, Literal>, inverse: map<Literal, Literal>)
    requires MutuallyInverse(image, inverse) && (forall l :: l in image <==> l in cycles)
    requires (forall l :: l in inverse <==> l in cycles)
    ensures forall v :: v in InvertedIn(cycles, inverse, 0, |cycles|) <==> InvertsVariable(cycles, image, v)
  {
    forall v | InvertsVariable(cycles, image, v) ensures v in InvertedIn(cycles, inverse, 0, |cycles|) {
      var l :| l in cycles && l.variable == v && l in image && image[l] == l.Negated();
      assert Into(image, inverse, l);
      var i :| 0 <= i < |cycles| && cycles[i] == l.Negated();
      assert inverse[cycles[i]] == l && l == cycles[i].Negated();
    }
    forall v | v in InvertedIn(cycles, inverse, 0, |cycles|) ensures InvertsVariable(cycles, image, v) {
      var i :| 0 <= i < |cycles| && cycles[i] in inverse && inverse[cycles[i]] == cycles[i].Negated() &&
        cycles[i].variable == v;
      var l := inverse[cycles[i]];
      assert Into(inverse, image, cycles[i]);
      assert l in cycles && image[l] == cycles[i] && cycles[i] == l.Negated();
    }
  }

  lemma Predecessor(cycles: seq<Literal>, lim: seq<nat>, image: map<Literal, Literal>, inverse: map<Literal, Literal>,
                    c: nat, k: nat)
    requires Tables(cycles, lim, image, inverse) && Start(lim, |lim|) == |cycles|
    requires c < |lim| && Start(lim, c) <= k < lim[c]
    ensures lim[c] <= |cycles| && cycles[k] in inverse
    ensures inverse[cycles[k]] == cycles[if k == Start(lim, c) then lim[c] - 1 else k - 1]
  {
    var e := if k == Start(lim, c) then lim[c] - 1 else k - 1;
    assert cycles[e] in cycles;
    assert image[cycles[e]] == cycles[if e + 1 == lim[c] then Start(lim, c) else e + 1];
    assert cycles[k] in cycles;
  }

  /** The variables in the set have got one more watcher. */
  ghost predicate Watched(before: seq<set<nat>>, after: seq<set<nat>>, index: nat, variables: set<nat>) {
    |after| == |before| &&
    forall v :: 0 <= v < |after| ==> after[v] == if v in variables then before[v] + {index} else before[v]
  }

  lemma WatchedNext(before: seq<set<nat>>, after: seq<set<nat>>, index: nat, cycles: seq<Literal>, a: nat, k: nat)
    requires a <= k < |cycles| && Watched(before, after, index, VariablesIn(cycles, a, k))
    requires cycles[k].variable < |after|
    ensures VariablesIn(cycles, a, k + 1) == VariablesIn(cycles, a, k) + {cycles[k].variable}
    ensures Watched(before, after[cycles[k].variable := after[cycles[k].variable] + {index}], index,
                    VariablesIn(cycles, a, k + 1))
  {
    assert VariablesIn(cycles, a, k + 1) == VariablesIn(cycles, a, k) + {cycles[k].variable};
  }

  lemma WatchedNone(watchers: seq<set<nat>>, index: nat, cycles: seq<Literal>, inverse: map<Literal, Literal>, a: nat)
    requires a <= |cycles|
    ensures VariablesIn(cycles, a, a) == {} && InvertedIn(cycles, inverse, a, a) == {}
    ensures Watched(watchers, watchers, index, VariablesIn(cycles, a, a))
  {
    assert VariablesIn(cycles, a, a) == {};
  }

  lemma InvertedNext(cycles: seq<Literal>, inverse: map<Literal, Literal>, a: nat, k: nat)
    requires a <= k < |cycles| && cycles[k] in inverse
    ensures InvertedIn(cycles, inverse, a, k + 1) == InvertedIn(cycles, inverse, a, k) +
              if inverse[cycles[k]] == cycles[k].Negated() then {cycles[k].variable} else {}
  {
  }

  lemma WatchedJoin(before: seq<set<nat>>, middle: seq<set<nat>>, after: seq<set<nat>>, index: nat,
                    cycles: seq<Literal>, inverse: map<Literal, Literal>, a: nat, b: nat)
    requires a <= b <= |cycles| && Watched(before, middle, index, VariablesIn(cycles, 0, a))
    requires Watched(middle, after, index, VariablesIn(cycles, a, b))
    ensures VariablesIn(cycles, 0, b) == VariablesIn(cycles, 0, a) + VariablesIn(cycles, a, b)
    ensures InvertedIn(cycles, inverse, 0, b) == InvertedIn(cycles, inverse, 0, a) + InvertedIn(cycles, inverse, a, b)
    ensures Watched(before, after, index, VariablesIn(cycles, 0, b))
  {
    assert VariablesIn(cycles, 0, b) == VariablesIn(cycles, 0, a) + VariablesIn(cycles, a, b);
  }

  lemma VariablesMoved(cycles: seq<Literal>)
    ensures forall v :: v in VariablesIn(cycles, 0, |cycles|) <==> MovesVariable(cycles, v)
  {
    forall v | MovesVariable(cycles, v) ensures v in VariablesIn(cycles, 0, |cycles|) {
      var l :| l in cycles && l.variable == v;
      var i :| 0 <= i < |cycles| && cycles[i] == l;
    }
  }

  class Group {
    var permutations: seq<Permutation>
    var symmetric: set<nat>
    var inverting: set<nat>
    var watchers: seq<set<nat>>

    constructor ()
      ensures Valid() && permutations == [] && symmetric == {} && inverting == {} && watchers == []
    {
      permutations, symmetric, inverting, watchers := [], {}, {}, [];
    }

    /** Every kept generator passed the filter, and a variable's watchers are the generators
        that move it. */
    ghost predicate Valid()
      reads this, permutations
    {
      (forall i :: 0 <= i < |permutations| ==> Kept(permutations[i], |watchers|)) &&
      (forall v, i: nat {:trigger i in watchers[v]} :: 0 <= v < |watchers| ==>
         (i in watchers[v] <==> i < |permutations| && MovesVariable(permutations[i].cycles, v)))
    }

    static ghost predicate Kept(p: Permutation, n: nat)
      reads p
    {
      p.Closed() && p.cycles != [] && Consistent(p.cycles, p.image) && forall l :: l in p.cycles ==> l.variable < n
    }

    function Watch(v: nat): set<nat>
      requires v < |watchers|
      reads this
    {
      watchers[v]
    }

    method IsPermutationSpurious(p: Permutation) returns (spurious: bool)
      requires p.Closed()
      ensures spurious <==> !Consistent(p.cycles, p.image)
    {
      hide Tables;
      TablesFit(p.cycles, p.cyclesLim, p.image, p.inverse);
      var k := 0;
      while k < |p.cycles|
        invariant 0 <= k <= |p.cycles|
        invariant forall i :: 0 <= i < k ==> KeepsSign(p.image, p.cycles[i])
      {
        var element := p.cycles[k];
        if element !in p.image || element.Negated() !in p.image ||
           p.image[element].Negated() != p.image[element.Negated()]
        {
          assert !KeepsSign(p.image, element);
          return true;
        }
        k := k + 1;
      }
      return false;
    }

    /** One cycle: its variables become watched by the generator. */
    method AddCycle(p: Permutation, index: nat, c: nat)
      requires p.Closed() && c < |p.cyclesLim| && forall l :: l in p.cycles ==> l.variable < |watchers|
      modifies this
      ensures p.cyclesLim[c] <= |p.cycles| && permutations == old(permutations) && |watchers| == |old(watchers)|
      ensures var a, b := Start(p.cyclesLim, c), p.cyclesLim[c];
              symmetric == old(symmetric) + VariablesIn(p.cycles, a, b) &&
              inverting == old(inverting) + InvertedIn(p.cycles, p.inverse, a, b) &&
              Watched(old(watchers), watchers, index, VariablesIn(p.cycles, a, b))
    {
      hide Tables, Watched, VariablesIn, InvertedIn;
      var a, b := Start(p.cyclesLim, c), p.cyclesLim[c];
      LimitsFit(p.cycles, p.cyclesLim, p.image, p.inverse);
      WatchedNone(watchers, index, p.cycles, p.inverse, a);
      var element := p.cycles[b - 1];
      var k := a;
      while k < b
        invariant a <= k <= b && permutations == old(permutations) && |watchers| == |old(watchers)|
        invariant element == p.cycles[if k == a then b - 1 else k - 1]
        invariant symmetric == old(symmetric) + VariablesIn(p.cycles, a, k)
        invariant inverting == old(inverting) + InvertedIn(p.cycles, p.inverse, a, k)
        invariant Watched(old(watchers), watchers, index, VariablesIn(p.cycles, a, k))
      {
        var image := p.cycles[k];
        Predecessor(p.cycles, p.cyclesLim, p.image, p.inverse, c, k);
        var variable := image.variable;
        assert image in p.cycles;
        WatchedNext(old(watchers), watchers, index, p.cycles, a, k);
        InvertedNext(p.cycles, p.inverse, a, k);
        watchers := watchers[variable := watchers[variable] + {index}];
        symmetric := symmetric + {variable};
        if element == image.Negated() {
          inverting := inverting + {variable};
        }
        element := image;
        k := k + 1;
      }
    }

    /** Generators without cycles and spurious ones are dropped. */
    method AddPermutation(p: Permutation)
      requires Valid() && p.Closed() && forall l :: l in p.cycles ==> l.variable < p.size
      modifies this
      ensures Valid()
      ensures if old(p.cyclesLim != [] && Consistent(p.cycles, p.image))
              then permutations == old(permutations) + [p] &&
                   (forall v :: v in symmetric <==> v in old(symmetric) || MovesVariable(p.cycles, v)) &&
                   (forall v :: v in inverting <==> v in old(inverting) || InvertsVariable(p.cycles, p.image, v))
              else permutations == old(permutations) && symmetric == old(symmetric) &&
                   inverting == old(inverting) && watchers == old(watchers)
      ensures permutations != old(permutations) ==>
          |watchers| == if p.size > |old(watchers)| then p.size else |old(watchers)|
    {
      hide Tables, Consistent, Watched, VariablesIn, InvertedIn;
      TablesFit(p.cycles, p.cyclesLim, p.image, p.inverse);
      LimitsFit(p.cycles, p.cyclesLim, p.image, p.inverse);
      if |p.cyclesLim| == 0 {
        return;
      }
      var spurious := IsPermutationSpurious(p);
      if spurious {
        return;
      }
      KeepPermutation(p);
    }

    method KeepPermutation(p: Permutation)
      requires Valid() && p.Closed() && (forall l :: l in p.cycles ==> l.variable < p.size)
      requires p.cyclesLim != [] && Consistent(p.cycles, p.image)
      modifies this
      ensures Valid() && permutations == old(permutations) + [p]
      ensures |watchers| == if p.size > |old(watchers)| then p.size else |old(watchers)|
      ensures forall v :: v in symmetric <==> v in old(symmetric) || MovesVariable(p.cycles, v)
      ensures forall v :: v in inverting <==> v in old(inverting) || InvertsVariable(p.cycles, p.image, v)
    {
      hide Tables, Consistent, Watched, VariablesIn, InvertedIn, MutuallyInverse, InvertsVariable, MovesVariable;
      TablesFit(p.cycles, p.cyclesLim, p.image, p.inverse);
      LimitsFit(p.cycles, p.cyclesLim, p.image, p.inverse);
      var index := |permutations|;
      if p.size > |watchers| {
        watchers := watchers + seq(p.size - |watchers|, i => {});
      }
      ghost var grown := watchers;
      AddCycles(p, index);
      permutations := permutations + [p];
      InvertedVariables(p.cycles, p.image, p.inverse);
      VariablesMoved(p.cycles);
      StaysValid(old(permutations), old(watchers), grown, watchers, p);
    }

    method AddCycles(p: Permutation, index: nat)
      requires p.Closed() && forall l :: l in p.cycles ==> l.variable < |watchers|
      modifies this
      ensures permutations == old(permutations) && |watchers| == |old(watchers)|
      ensures symmetric == old(symmetric) + VariablesIn(p.cycles, 0, |p.cycles|)
      ensures inverting == old(inverting) + InvertedIn(p.cycles, p.inverse, 0, |p.cycles|)
      ensures Watched(old(watchers), watchers, index, VariablesIn(p.cycles, 0, |p.cycles|))
    {
      hide Tables, Watched, VariablesIn, InvertedIn;
      LimitsFit(p.cycles, p.cyclesLim, p.image, p.inverse);
      ghost var grown := watchers;
      WatchedNone(grown, index, p.cycles, p.inverse, 0);
      var c := 0;
      while c < |p.cyclesLim|
        invariant 0 <= c <= |p.cyclesLim| && |watchers| == |grown| && permutations == old(permutations)
        invariant Start(p.cyclesLim, c) <= |p.cycles|
        invariant symmetric == old(symmetric) + VariablesIn(p.cycles, 0, Start(p.cyclesLim, c))
        invariant inverting == old(inverting) + InvertedIn(p.cycles, p.inverse, 0, Start(p.cyclesLim, c))
        invariant Watched(grown, watchers, index, VariablesIn(p.cycles, 0, Start(p.cyclesLim, c)))
      {
        ghost var middle := watchers;
        AddCycle(p, index, c);
        WatchedJoin(grown, middle, watchers, index, p.cycles, p.inverse, Start(p.cyclesLim, c), p.cyclesLim[c]);
        c := c + 1;
      }
    }
  }

  lemma StaysValid(permutations: seq<Permutation>, before: seq<set<nat>>, grown: seq<set<nat>>, after: seq<set<nat>>,
                   p: Permutation)
    requires |before| <= |grown| && forall v :: 0 <= v < |grown| ==> grown[v] == if v < |before| then before[v] else {}
    requires forall i :: 0 <= i < |permutations| ==> forall l :: l in permutations[i].cycles ==> l.variable < |before|
    requires forall v, i: nat {:trigger i in before[v]} :: 0 <= v < |before| ==>
               (i in before[v] <==> i < |permutations| && MovesVariable(permutations[i].cycles, v))
    requires Watched(grown, after, |permutations|, VariablesIn(p.cycles, 0, |p.cycles|))
    ensures forall v, i: nat {:trigger i in after[v]} :: 0 <= v < |after| ==>
              (i in after[v] <==> i < |permutations| + 1 && MovesVariable((permutations + [p])[i].cycles, v))
  {
    VariablesMoved(p.cycles);
    forall v, i: nat | 0 <= v < |after|
      ensures i in after[v] <==> i < |permutations| + 1 && MovesVariable((permutations + [p])[i].cycles, v)
    {
      assert i in grown[v] <==> v < |before| && i in before[v];
      assert i < |permutations| ==> (permutations + [p])[i] == permutations[i];
    }
  }

  lemma LimitsFit(cycles: seq<Literal>, lim: seq<nat>, image: map<Literal, Literal>, inverse: map<Literal, Literal>)
    requires Tables(cycles, lim, image, inverse)
    ensures Limits(lim, |cycles|)
  {
  }
}
