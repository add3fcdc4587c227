/** Permutations of literals as lists of cycles with lookup tables. */
module Permutations {
  import opened Logic

  class Permutation {
    const size: nat
    var cycles: seq<Literal>
    var cyclesLim: seq<nat>
    var image: map<Literal, Literal>
    var inverse: map<Literal, Literal>

    constructor (size: nat)
      ensures Valid() && this.size == size
      ensures cycles == [] && cyclesLim == [] && image == map[] && inverse == map[]
    {
      this.size := size;
      cycles, cyclesLim, image, inverse := [], [], map[], map[];
    }

    function OpenStart(): nat
      reads this
    {
      Start(cyclesLim, |cyclesLim|)
    }

    ghost predicate Valid()
      reads this
    {
      Tables(cycles, cyclesLim, image, inverse)
    }

    /** Every cycle has been closed. */
    ghost predicate Closed()
      reads this
    {
      Valid() && OpenStart() == |cycles|
    }

    method AddToCurrentCycle(x: Literal)
      requires Valid() && x !in cycles
      modifies this
      ensures Valid()
      ensures cycles == old(cycles) + [x] && cyclesLim == old(cyclesLim)
      ensures |old(cycles)| == old(OpenStart()) ==> image == old(image) && inverse == old(inverse)
      ensures |old(cycles)| != old(OpenStart()) ==>
                image == old(image)[old(cycles[|cycles| - 1]) := x] &&
                  inverse == old(inverse)[x := old(cycles[|cycles| - 1])]
    {
      hide Tables, MutuallyInverse;
      TablesFit(cycles, cyclesLim, image, inverse);
      TablesAdded(cycles, cyclesLim, image, inverse, x);
      var cs := |cycles|;
      if cs != OpenStart() {
        var e := cycles[cs - 1];
        image, inverse := image[e := x], inverse[x := e];
      }
      cycles := cycles + [x];
    }

    method CloseCurrentCycle()
      requires Valid() && |cycles| != OpenStart() + 1
      modifies this
      ensures Closed() && cycles == old(cycles)
      ensures |cycles| == old(OpenStart()) ==>
          cyclesLim == old(cyclesLim) && image == old(image) && inverse == old(inverse)
      ensures |cycles| != old(OpenStart()) ==>
                cyclesLim == old(cyclesLim) + [|cycles|] &&
                image == old(image)[cycles[|cycles| - 1] := cycles[old(OpenStart())]] &&
                inverse == old(inverse)[cycles[old(OpenStart())] := cycles[|cycles| - 1]]
    {
      hide Tables, MutuallyInverse;
      TablesFit(cycles, cyclesLim, image, inverse);
      var last := OpenStart();
      if last == |cycles| {
        return;
      }
      TablesClosed(cycles, cyclesLim, image, inverse);
      cyclesLim := cyclesLim + [|cycles|];
      var e, i := cycles[|cycles| - 1], cycles[last];
      image := image[e := i];
      inverse := inverse[i := e];
    }
  }

  /** Limits are increasing, every cycle has at least two elements. */
  ghost predicate Limits(lim: seq<nat>, n: nat) {
    (forall c :: 0 <= c < |lim| ==> 2 <= lim[c] <= n) &&
    (forall c, d :: 0 <= c < d < |lim| ==> lim[c] + 2 <= lim[d])
  }

  function Start(lim: seq<nat>, c: nat): nat
    requires c <= |lim|
  {
    if c == 0 then 0 else lim[c - 1]
  }

  predicate Into(image: map<Literal, Literal>, inverse: map<Literal, Literal>, l: Literal) {
    l in image ==> image[l] in inverse
  }

  ghost predicate MutuallyInverse(image: map<Literal, Literal>, inverse: map<Literal, Literal>) {
    (forall l {:trigger Into(image, inverse, l)} :: Into(image, inverse, l)) &&
    (forall l {:trigger Into(inverse, image, l)} :: Into(inverse, image, l)) &&
    (forall a, b {:trigger image[a], inverse[b]} :: a in image && b in inverse ==> (image[a] == b <==> inverse[b] == a))
  }

  lemma MutuallyInverseAdd(image: map<Literal, Literal>, inverse: map<Literal, Literal>, a: Literal, b: Literal)
    requires MutuallyInverse(image, inverse) && a !in image && b !in inverse
    ensures MutuallyInverse(image[a := b], inverse[b := a])
  {
    var more, back := image[a := b], inverse[b := a];
    forall l ensures Into(more, back, l) { assert Into(image, inverse, l); }
    forall l ensures Into(back, more, l) { assert Into(inverse, image, l); }
    forall x, y | x in more && y in back ensures more[x] == y <==> back[y] == x {
      assert Into(image, inverse, x) && Into(inverse, image, y);
    }
  }

  /** In a cycle still open the last element has no image and the first no inverse. */
  ghost predicate Domains(cycles: seq<Literal>, start: nat, image: map<Literal, Literal>,
                          inverse: map<Literal, Literal>)
    requires start <= |cycles|
  {
    (forall l :: l in image <==> l in cycles && (start < |cycles| ==> l != cycles[|cycles| - 1])) &&
    (forall l :: l in inverse <==> l in cycles && (start < |cycles| ==> l != cycles[start]))
  }

  /** The image of an element is its successor in its cycle. */
  ghost predicate Chained(cycles: seq<Literal>, lim: seq<nat>, image: map<Literal, Literal>)
    requires Limits(lim, |cycles|)
  {
    (forall c, k {:trigger lim[c], image[cycles[k]]} ::
       0 <= c < |lim| && Start(lim, c) <= k < lim[c] && cycles[k] in image ==>
       image[cycles[k]] == cycles[if k + 1 == lim[c] then Start(lim, c) else k + 1]) &&
    (forall k {:trigger image[cycles[k]]} :: Start(lim, |lim|) <= k < |cycles| - 1 && cycles[k] in image ==>
       image[cycles[k]] == cycles[k + 1])
  }

  ghost predicate Linked(cycles: seq<Literal>, lim: seq<nat>, image: map<Literal, Literal>,
                         inverse: map<Literal, Literal>)
    requires Limits(lim, |cycles|)
  {
    MutuallyInverse(image, inverse) && Domains(cycles, Start(lim, |lim|), image, inverse) && Chained(cycles, lim, image)
  }

  ghost predicate Tables(cycles: seq<Literal>, lim: seq<nat>, image: map<Literal, Literal>,
                         inverse: map<Literal, Literal>) {
    NoRepeats(cycles) && Limits(lim, |cycles|) && Linked(cycles, lim, image, inverse)
  }

  lemma TablesAdded(cycles: seq<Literal>, lim: seq<nat>, image: map<Literal, Literal>, inverse: map<Literal, Literal>,
                    x: Literal)
    requires Tables(cycles, lim, image, inverse) && x !in cycles
    ensures var start := Start(lim, |lim|);
            if start == |cycles| then Tables(cycles + [x], lim, image, inverse)
            else Tables(cycles + [x], lim, image[cycles[|cycles| - 1] := x], inverse[x := cycles[|cycles| - 1]])
  {
    LinkAdded(cycles, lim, image, inverse, x);
  }

  lemma TablesClosed(cycles: seq<Literal>, lim: seq<nat>, image: map<Literal, Literal>, inverse: map<Literal, Literal>)
    requires Tables(cycles, lim, image, inverse) && Start(lim, |lim|) + 2 <= |cycles|
    ensures var start := Start(lim, |lim|);
            Tables(cycles, lim + [|cycles|], image[cycles[|cycles| - 1] := cycles[start]],
                   inverse[cycles[start] := cycles[|cycles| - 1]])
  {
    LinkClosed(cycles, lim, image, inverse);
  }

  lemma TablesFit(cycles: seq<Literal>, lim: seq<nat>, image: map<Literal, Literal>, inverse: map<Literal, Literal>)
    requires Tables(cycles, lim, image, inverse)
    ensures Start(lim, |lim|) <= |cycles|
    ensures Start(lim, |lim|) == |cycles| ==>
              (forall l :: l in image <==> l in cycles) && (forall l :: l in inverse <==> l in cycles)
    ensures MutuallyInverse(image, inverse)
  {
  }

  lemma ChainAdded(cycles: seq<Literal>, lim: seq<nat>, image: map<Literal, Literal>, x: Literal)
    requires Limits(lim, |cycles|) && Chained(cycles, lim, image) && x !in cycles && x !in image && NoRepeats(cycles)
    requires Start(lim, |lim|) < |cycles|
    ensures Chained(cycles + [x], lim, image[cycles[|cycles| - 1] := x])
  {
    var n, longer, more := |cycles|, cycles + [x], image[cycles[|cycles| - 1] := x];
    forall c, k | 0 <= c < |lim| && Start(lim, c) <= k < lim[c] && longer[k] in more
      ensures more[longer[k]] == longer[if k + 1 == lim[c] then Start(lim, c) else k + 1]
    {
      assert cycles[k] in image && image[cycles[k]] == image[longer[k]];
    }
    forall k | Start(lim, |lim|) <= k < n && longer[k] in more
      ensures more[longer[k]] == longer[k + 1]
    {
      if k < n - 1 { assert image[cycles[k]] == cycles[k + 1]; }
    }
  }

  lemma ChainStarted(cycles: seq<Literal>, lim: seq<nat>, image: map<Literal, Literal>, x: Literal)
    requires Limits(lim, |cycles|) && Chained(cycles, lim, image) && Start(lim, |lim|) == |cycles|
    ensures Chained(cycles + [x], lim, image)
  {
    var longer := cycles + [x];
    forall c, k | 0 <= c < |lim| && Start(lim, c) <= k < lim[c] && longer[k] in image
      ensures image[longer[k]] == longer[if k + 1 == lim[c] then Start(lim, c) else k + 1]
    {
      assert image[cycles[k]] == image[longer[k]];
    }
  }

  lemma DomainsAdded(cycles: seq<Literal>, start: nat, image: map<Literal, Literal>, inverse: map<Literal, Literal>,
                     x: Literal)
    requires start <= |cycles| && Domains(cycles, start, image, inverse) && x !in cycles && NoRepeats(cycles)
    ensures if start == |cycles| then Domains(cycles + [x], start, image, inverse)
            else Domains(cycles + [x], start, image[cycles[|cycles| - 1] := x], inverse[x := cycles[|cycles| - 1]])
  {
    assert forall l :: l in cycles + [x] <==> l in cycles || l == x;
  }

  lemma DomainsClosed(cycles: seq<Literal>, start: nat, image: map<Literal, Literal>, inverse: map<Literal, Literal>)
    requires start < |cycles| && Domains(cycles, start, image, inverse)
    ensures Domains(cycles, |cycles|, image[cycles[|cycles| - 1] := cycles[start]],
                    inverse[cycles[start] := cycles[|cycles| - 1]])
  {
  }

  lemma LinkAdded(cycles: seq<Literal>, lim: seq<nat>, image: map<Literal, Literal>, inverse: map<Literal, Literal>,
                  x: Literal)
    requires Limits(lim, |cycles|) && Linked(cycles, lim, image, inverse) && x !in cycles && NoRepeats(cycles)
    ensures var start := Start(lim, |lim|);
            if start == |cycles| then Linked(cycles + [x], lim, image, inverse)
            else Linked(cycles + [x], lim, image[cycles[|cycles| - 1] := x], inverse[x := cycles[|cycles| - 1]])
  {
    DomainsAdded(cycles, Start(lim, |lim|), image, inverse, x);
    if Start(lim, |lim|) == |cycles| {
      ChainStarted(cycles, lim, image, x);
    } else {
      MutuallyInverseAdd(image, inverse, cycles[|cycles| - 1], x);
      ChainAdded(cycles, lim, image, x);
    }
  }

  lemma ChainKept(cycles: seq<Literal>, lim: seq<nat>, image: map<Literal, Literal>, i: Literal, c: nat, k: nat)
    requires Limits(lim, |cycles|) && Chained(cycles, lim, image) && NoRepeats(cycles)
    requires Start(lim, |lim|) < |cycles| && c < |lim| && Start(lim, c) <= k < lim[c]
    ensures var more := image[cycles[|cycles| - 1] := i];
            cycles[k] in more ==> more[cycles[k]] == cycles[if k + 1 == lim[c] then Start(lim, c) else k + 1]
  {
    assert lim[c] <= lim[|lim| - 1];
    assert cycles[k] != cycles[|cycles| - 1];
    assert cycles[k] in image ==> image[cycles[k]] == cycles[if k + 1 == lim[c] then Start(lim, c) else k + 1];
  }

  lemma LimitsClosed(lim: seq<nat>, n: nat)
    requires Limits(lim, n) && Start(lim, |lim|) + 2 <= n
    ensures Limits(lim + [n], n)
    ensures Start(lim + [n], |lim|) == Start(lim, |lim|) && Start(lim + [n], |lim| + 1) == n
    ensures forall c :: 0 <= c < |lim| ==> (lim + [n])[c] == lim[c] && Start(lim + [n], c) == Start(lim, c)
  {
  }

  lemma EntryClosed(cycles: seq<Literal>, lim: seq<nat>, image: map<Literal, Literal>, c: nat, k: nat)
    requires Limits(lim, |cycles|) && Chained(cycles, lim, image) && NoRepeats(cycles)
    requires Start(lim, |lim|) + 2 <= |cycles|
    ensures var longer, more := lim + [|cycles|], image[cycles[|cycles| - 1] := cycles[Start(lim, |lim|)]];
            c < |longer| && Start(longer, c) <= k < longer[c] <= |cycles| && Start(longer, c) <= |cycles| &&
              cycles[k] in more ==>
              more[cycles[k]] == cycles[if k + 1 == longer[c] then Start(longer, c) else k + 1]
  {
    hide Chained, NoRepeats, Limits;
    LimitsClosed(lim, |cycles|);
    if c < |lim| && Start(lim, c) <= k < lim[c] {
      ChainKept(cycles, lim, image, cycles[Start(lim, |lim|)], c, k);
    } else if c == |lim| && Start(lim, |lim|) <= k < |cycles| {
      LastKept(cycles, lim, image, k);
    }
  }

  lemma ChainClosed(cycles: seq<Literal>, lim: seq<nat>, image: map<Literal, Literal>)
    requires Limits(lim, |cycles|) && Chained(cycles, lim, image) && NoRepeats(cycles)
    requires Start(lim, |lim|) + 2 <= |cycles|
    ensures Limits(lim + [|cycles|], |cycles|)
    ensures Chained(cycles, lim + [|cycles|], image[cycles[|cycles| - 1] := cycles[Start(lim, |lim|)]])
  {
    hide NoRepeats;
    LimitsClosed(lim, |cycles|);
    var longer, more := lim + [|cycles|], image[cycles[|cycles| - 1] := cycles[Start(lim, |lim|)]];
    forall c, k | 0 <= c < |longer| && Start(longer, c) <= k < longer[c] && cycles[k] in more
      ensures more[cycles[k]] == cycles[if k + 1 == longer[c] then Start(longer, c) else k + 1]
    {
      EntryClosed(cycles, lim, image, c, k);
    }
  }

  lemma LastKept(cycles: seq<Literal>, lim: seq<nat>, image: map<Literal, Literal>, k: nat)
    requires Limits(lim, |cycles|) && Chained(cycles, lim, image) && NoRepeats(cycles)
    requires Start(lim, |lim|) <= k < |cycles|
    ensures var more := image[cycles[|cycles| - 1] := cycles[Start(lim, |lim|)]];
            cycles[k] in more ==> more[cycles[k]] == cycles[if k + 1 == |cycles| then Start(lim, |lim|) else k + 1]
  {
    if k < |cycles| - 1 {
      assert cycles[k] != cycles[|cycles| - 1];
      assert cycles[k] in image ==> image[cycles[k]] == cycles[k + 1];
    }
  }

  lemma LinkClosed(cycles: seq<Literal>, lim: seq<nat>, image: map<Literal, Literal>, inverse: map<Literal, Literal>)
    requires Limits(lim, |cycles|) && Linked(cycles, lim, image, inverse) && NoRepeats(cycles)
    requires Start(lim, |lim|) + 2 <= |cycles|
    ensures var start := Start(lim, |lim|);
            Limits(lim + [|cycles|], |cycles|) &&
            Linked(cycles, lim + [|cycles|], image[cycles[|cycles| - 1] := cycles[start]],
                   inverse[cycles[start] := cycles[|cycles| - 1]])
  {
    MutuallyInverseAdd(image, inverse, cycles[|cycles| - 1], cycles[Start(lim, |lim|)]);
    DomainsClosed(cycles, Start(lim, |lim|), image, inverse);
    ChainClosed(cycles, lim, image);
  }
}
