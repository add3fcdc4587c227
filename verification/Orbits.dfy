/**
 * The orbits of the variables under a list of generators, by union-find over their cycles.
 */
module OrbitPartition {
  import opened Logic
  import opened Permutations
  import opened DisjointSet
  import opened Groups

  type Links = set<(nat, nat)>

  predicate Joined(links: Links, a: nat, b: nat) { (a, b) in links || (b, a) in links }

  ghost predicate Path(links: Links, p: seq<nat>) {
    forall k :: 0 <= k < |p| - 1 ==> Joined(links, p[k], p[k + 1])
  }

  ghost predicate Via(links: Links, p: seq<nat>, a: nat, b: nat) {
    p != [] && p[0] == a && p[|p| - 1] == b && Path(links, p)
  }

  /** A chain of links leads from one to the other. */
  ghost predicate Connected(links: Links, a: nat, b: nat) {
    exists p :: Via(links, p, a, b)
  }

  lemma ConnectedSelf(links: Links, a: nat)
    ensures Connected(links, a, a)
  {
    assert Via(links, [a], a, a);
  }

  lemma ConnectedStep(links: Links, a: nat, b: nat)
    requires Joined(links, a, b)
    ensures Connected(links, a, b)
  {
    assert Via(links, [a, b], a, b);
  }

  lemma ConnectedTrans(links: Links, a: nat, b: nat, c: nat)
    requires Connected(links, a, b) && Connected(links, b, c)
    ensures Connected(links, a, c)
  {
    var p :| Via(links, p, a, b);
    var q :| Via(links, q, b, c);
    var r := p + q[1..];
    forall k | 0 <= k < |r| - 1 ensures Joined(links, r[k], r[k + 1]) {
      if k < |p| - 1 {
        assert r[k] == p[k] && r[k + 1] == p[k + 1];
      } else {
        assert r[k] == q[k - (|p| - 1)] && r[k + 1] == q[k + 1 - (|p| - 1)];
      }
    }
    assert Via(links, r, a, c);
  }

  lemma ConnectedMore(links: Links, more: Links, a: nat, b: nat)
    requires Connected(links, a, b) && links <= more
    ensures Connected(more, a, b)
  {
    var p :| Via(links, p, a, b);
    assert forall k :: 0 <= k < |p| - 1 ==> Joined(links, p[k], p[k + 1]);
    assert Via(more, p, a, b);
  }

  /** The sets of the forest are the connected components, and links stay inside it. */
  ghost predicate Components(f: Forest, links: Links) {
    Ranked(f) &&
    (forall a, b :: Joined(links, a, b) ==> Together(f, a, b)) &&
    (forall a, b :: Together(f, a, b) ==> Connected(links, a, b))
  }

  lemma {:induction false} PathStays(f: Forest, links: Links, p: seq<nat>, a: nat, b: nat)
    requires Components(f, links) && Via(links, p, a, b) && a in f
    ensures Together(f, a, b)
    decreases |p|
  {
    hide Root, Ranked;
    if |p| > 1 {
      assert Joined(links, p[0], p[1]);
      forall k | 0 <= k < |p| - 2 ensures Joined(links, p[1..][k], p[1..][k + 1]) {
        assert Joined(links, p[k + 1], p[k + 2]);
      }
      assert Via(links, p[1..], p[1], b);
      PathStays(f, links, p[1..], p[1], b);
    }
  }

  lemma TogetherIsConnected(f: Forest, links: Links, a: nat, b: nat)
    requires Components(f, links) && a in f
    ensures Together(f, a, b) <==> Connected(links, a, b)
  {
    hide Root, Ranked;
    if Connected(links, a, b) {
      var p :| Via(links, p, a, b);
      PathStays(f, links, p, a, b);
    }
  }

  ghost predicate Added(f: Forest, g: Forest, x: nat)
    requires Ranked(f) && Ranked(g)
  {
    forall a, b :: Together(g, a, b) <==> Together(f, a, b) || (a == x && b == x)
  }

  lemma ComponentsAdd(f: Forest, g: Forest, links: Links, x: nat)
    requires Components(f, links) && Ranked(g) && Added(f, g, x)
    ensures Components(g, links)
  {
    hide Root, Ranked;
    ConnectedSelf(links, x);
  }

  lemma ComponentsUnion(f: Forest, g: Forest, links: Links, x: nat, y: nat)
    requires Components(f, links) && Ranked(g) && Merged(f, g, x, y) && x in f && y in f
    ensures Components(g, links + {(x, y)})
  {
    hide Root, Ranked;
    var more := links + {(x, y)};
    forall a, b | Joined(more, a, b) ensures Together(g, a, b) {
      assert Joined(links, a, b) || (a == x && b == y) || (a == y && b == x);
    }
    forall a, b | Together(g, a, b) ensures Connected(more, a, b) {
      ConnectedUnion(f, links, a, b, x, y);
    }
  }

  lemma ConnectedUnion(f: Forest, links: Links, a: nat, b: nat, x: nat, y: nat)
    requires Components(f, links)
    requires Together(f, a, b) || (Together(f, a, x) && Together(f, b, y)) || (Together(f, a, y) && Together(f, b, x))
    ensures Connected(links + {(x, y)}, a, b)
  {
    hide Root, Ranked;
    var more := links + {(x, y)};
    if Together(f, a, b) {
      ConnectedMore(links, more, a, b);
    } else {
      var s, t := if Together(f, a, x) && Together(f, b, y) then x else y, if Together(f, a, x) &&
        Together(f, b, y) then y else x;
      assert Together(f, a, s) && Together(f, t, b);
      ConnectedMore(links, more, a, s);
      ConnectedMore(links, more, t, b);
      assert Joined(more, s, t);
      ConnectedStep(more, s, t);
      ConnectedTrans(more, a, s, t);
      ConnectedTrans(more, a, t, b);
    }
  }

  /** Every element at positions `a` up to `b` of the cycle list with its predecessor. */
  ghost function LinksIn(cycles: seq<Literal>, inverse: map<Literal, Literal>, a: nat, b: nat): Links
    requires b <= |cycles|
  {
    set j | a <= j < b && cycles[j] in inverse :: (inverse[cycles[j]].variable, cycles[j].variable)
  }

  predicate Link(image: map<Literal, Literal>, l: Literal, u: nat, v: nat) {
    l in image && l.variable == u && image[l].variable == v
  }

  /** Some generator sends a literal of `u` to a literal of `v`. */
  ghost predicate Sends(images: seq<map<Literal, Literal>>, u: nat, v: nat) {
    exists i, l :: 0 <= i < |images| && Link(images[i], l, u, v)
  }

  ghost predicate AreLinks(images: seq<map<Literal, Literal>>, links: Links) {
    forall u: nat, v: nat :: (u, v) in links <==> Sends(images, u, v)
  }

  ghost predicate Moved(images: seq<map<Literal, Literal>>, v: nat) {
    exists i, l :: 0 <= i < |images| && l in images[i] && l.variable == v
  }

  ghost predicate AreMoved(images: seq<map<Literal, Literal>>, vs: set<nat>) {
    forall v :: v in vs <==> Moved(images, v)
  }

  lemma LinksOfImage(cycles: seq<Literal>, image: map<Literal, Literal>, inverse: map<Literal, Literal>, u: nat, v: nat)
    requires MutuallyInverse(image, inverse) && (forall l :: l in image <==> l in cycles)
    requires (forall l :: l in inverse <==> l in cycles)
    ensures (u, v) in LinksIn(cycles, inverse, 0, |cycles|) <==> exists l :: Link(image, l, u, v)
  {
    if (u, v) in LinksIn(cycles, inverse, 0, |cycles|) {
      var j :| 0 <= j < |cycles| && cycles[j] in inverse && (inverse[cycles[j]].variable, cycles[j].variable) == (u, v);
      assert Into(inverse, image, cycles[j]);
      assert Link(image, inverse[cycles[j]], u, v);
    }
    if l :| Link(image, l, u, v) {
      assert Into(image, inverse, l);
      var j :| 0 <= j < |cycles| && cycles[j] == image[l];
      assert inverse[cycles[j]] == l;
    }
  }

  lemma LinksNext(images: seq<map<Literal, Literal>>, links: Links, p: Permutation)
    requires AreLinks(images, links) && p.Closed()
    ensures AreLinks(images + [p.image], links + LinksIn(p.cycles, p.inverse, 0, |p.cycles|))
  {
    hide Tables, MutuallyInverse, LinksIn;
    TablesFit(p.cycles, p.cyclesLim, p.image, p.inverse);
    var more := images + [p.image];
    var all := links + LinksIn(p.cycles, p.inverse, 0, |p.cycles|);
    forall u: nat, v: nat ensures (u, v) in all <==> Sends(more, u, v) {
      LinksOfImage(p.cycles, p.image, p.inverse, u, v);
      if Sends(images, u, v) {
        var i, l :| 0 <= i < |images| && Link(images[i], l, u, v);
        assert more[i] == images[i];
      }
      if l :| Link(p.image, l, u, v) {
        assert more[|images|] == p.image;
      }
      if Sends(more, u, v) {
        var i, l :| 0 <= i < |more| && Link(more[i], l, u, v);
        assert i < |images| ==> more[i] == images[i];
      }
    }
  }

  /** The moved variables without repeats. */
  ghost predicate Lists(s: seq<nat>, vs: set<nat>) {
    NoRepeats(s) && forall v :: v in s <==> v in vs
  }

  lemma ListsNext(s: seq<nat>, vs: set<nat>, v: nat)
    requires Lists(s, vs)
    ensures Lists(if v in vs then s else s + [v], vs + {v})
  {
  }

  /** Every orbit is a class of connected variables and every listed variable is in one. */
  ghost predicate AreOrbits(orbits: seq<seq<nat>>, s: seq<nat>, links: Links) {
    (forall i :: 0 <= i < |orbits| ==> orbits[i] != [] && NoRepeats(orbits[i]) && forall v :: v in orbits[i] ==>
      v in s) &&
    (forall v :: v in s ==> exists i :: 0 <= i < |orbits| && v in orbits[i]) &&
    (forall i, j, u, v :: 0 <= i < |orbits| && 0 <= j < |orbits| && u in orbits[i] && v in orbits[j] ==>
      (i == j <==> Connected(links, u, v)))
  }

  /** The first `k` listed variables grouped by their representative. */
  ghost predicate Grouped(f: Forest, s: seq<nat>, k: nat, groups: map<nat, seq<nat>>)
    requires Ranked(f) && k <= |s|
  {
    (forall r :: r in groups ==> groups[r] != [] && NoRepeats(groups[r])) &&
    (forall r, v :: r in groups && v in groups[r] ==> v in s && v in f && Root(f, v) == r && v !in s[k..]) &&
    (forall j :: 0 <= j < k ==> s[j] in f && InGroup(groups, s[j], Root(f, s[j])))
  }

  predicate InGroup(groups: map<nat, seq<nat>>, v: nat, r: nat) { r in groups && v in groups[r] }

  lemma GroupedNext(f: Forest, s: seq<nat>, k: nat, groups: map<nat, seq<nat>>, more: map<nat, seq<nat>>)
    requires Ranked(f) && k < |s| && NoRepeats(s) && s[k] in f && Grouped(f, s, k, groups)
    requires var r := Root(f, s[k]); more == groups[r := if r in groups then groups[r] + [s[k]] else [s[k]]]
    ensures Grouped(f, s, k + 1, more)
  {
    hide Root, Ranked;
    var r := Root(f, s[k]);
    assert s[k..] == [s[k]] + s[k + 1..];
    forall j | 0 <= j < k + 1 ensures InGroup(more, s[j], Root(f, s[j])) {
      assert j < k ==> InGroup(groups, s[j], Root(f, s[j]));
    }
    forall q, v | q in more && v in more[q] ensures v in s && v in f && Root(f, v) == q && v !in s[k + 1..] {
      assert v == s[k] || (q in groups && v in groups[q]);
    }
  }

  /** The groups in some order of their representatives. */
  ghost predicate Listed(groups: map<nat, seq<nat>>, keys: set<nat>, reps: seq<nat>, orbits: seq<seq<nat>>) {
    |reps| == |orbits| && NoRepeats(reps) &&
    (forall i :: 0 <= i < |reps| ==> reps[i] in groups && orbits[i] == groups[reps[i]] && reps[i] !in keys) &&
    (forall r :: r in groups ==> r in keys || r in reps)
  }

  lemma GroupsAreOrbits(f: Forest, s: seq<nat>, groups: map<nat, seq<nat>>, reps: seq<nat>, orbits: seq<seq<nat>>,
                        links: Links)
    requires Components(f, links) && Grouped(f, s, |s|, groups) && Listed(groups, {}, reps, orbits)
    ensures AreOrbits(orbits, s, links)
  {
    hide Root, Ranked, Components;
    RankedComponents(f, links);
    forall v | v in s ensures exists i :: 0 <= i < |orbits| && v in orbits[i] {
      var j :| 0 <= j < |s| && s[j] == v;
      assert InGroup(groups, s[j], Root(f, s[j]));
      var i :| 0 <= i < |reps| && reps[i] == Root(f, s[j]);
      assert v in orbits[i];
    }
    forall i, j, u, v | 0 <= i < |orbits| && 0 <= j < |orbits| && u in orbits[i] && v in orbits[j]
      ensures i == j <==> Connected(links, u, v)
    {
      assert u in groups[reps[i]] && v in groups[reps[j]];
      TogetherIsConnected(f, links, u, v);
      assert i < j ==> reps[i] != reps[j];
      assert j < i ==> reps[j] != reps[i];
    }
  }

  class Orbits {
    var symmetrics: seq<nat>
    var orbits: seq<seq<nat>>

    constructor ()
      ensures symmetrics == [] && orbits == []
    {
      symmetrics, orbits := [], [];
    }

    /** One cycle: every element is united with its image. */
    method AddCycle(p: Permutation, c: nat, sets: DisjointSets, used: set<nat>, ghost links: Links)
      returns (more: set<nat>)
      requires p.Closed() && c < |p.cyclesLim|
      requires sets.Valid() && Components(sets.nodes, links) && Lists(symmetrics, used) && used <= sets.nodes.Keys
      modifies this`symmetrics, sets
      ensures p.cyclesLim[c] <= |p.cycles|
      ensures var a, b := Start(p.cyclesLim, c), p.cyclesLim[c];
              more == used + VariablesIn(p.cycles, a, b) &&
              sets.Valid() && Components(sets.nodes, links + LinksIn(p.cycles, p.inverse, a, b))
      ensures Lists(symmetrics, more) && more <= sets.nodes.Keys
    {
      hide Tables, Ranked, Weighed, Roots, DisjointSets.Valid, Components, Lists, LinksIn, SourcesIn, VariablesIn;
      LimitsFit(p.cycles, p.cyclesLim, p.image, p.inverse);
      var a, b := Start(p.cyclesLim, c), p.cyclesLim[c];
      var element := p.cycles[b - 1];
      AddElement(sets, element.variable, links);
      more := used;
      var k := a;
      NoLinks(p.cycles, p.inverse, a);
      assert links + LinksIn(p.cycles, p.inverse, a, a) == links;
      while k < b
        invariant a <= k <= b && element == p.cycles[if k == a then b - 1 else k - 1]
        invariant sets.Valid() && element.variable in sets.nodes
        invariant Components(sets.nodes, links + LinksIn(p.cycles, p.inverse, a, k))
        invariant more == used + SourcesIn(p.cycles, p.inverse, a, k)
        invariant Lists(symmetrics, more) && more <= sets.nodes.Keys
      {
        var image := p.cycles[k];
        Predecessor(p.cycles, p.cyclesLim, p.image, p.inverse, c, k);
        LinksInNext(p.cycles, p.inverse, a, k);
        ListsNext(symmetrics, more, element.variable);
        if element.variable !in more {
          more := more + {element.variable};
          symmetrics := symmetrics + [element.variable];
        }
        assert more == used + SourcesIn(p.cycles, p.inverse, a, k + 1);
        ghost var sofar := links + LinksIn(p.cycles, p.inverse, a, k);
        AddLink(sets, element.variable, image.variable, sofar);
        assert sofar + {(element.variable, image.variable)} == links + LinksIn(p.cycles, p.inverse, a, k + 1);
        element := image;
        k := k + 1;
      }
      SourcesAreVariables(p.cycles, p.cyclesLim, p.image, p.inverse, c);
    }

    /** All cycles of one generator. */
    method AddGenerator(p: Permutation, sets: DisjointSets, used: set<nat>, ghost links: Links) returns (more: set<nat>)
      requires p.Closed()
      requires sets.Valid() && Components(sets.nodes, links) && Lists(symmetrics, used) && used <= sets.nodes.Keys
      modifies this`symmetrics, sets
      ensures more == used + VariablesIn(p.cycles, 0, |p.cycles|)
      ensures sets.Valid() && Components(sets.nodes, links + LinksIn(p.cycles, p.inverse, 0, |p.cycles|))
      ensures Lists(symmetrics, more) && more <= sets.nodes.Keys
    {
      hide Tables, Ranked, Weighed, Roots, DisjointSets.Valid, Components, Lists, LinksIn, VariablesIn;
      LimitsFit(p.cycles, p.cyclesLim, p.image, p.inverse);
      more := used;
      var c := 0;
      NothingIn(p.cycles, p.inverse, 0);
      assert links + LinksIn(p.cycles, p.inverse, 0, 0) == links;
      while c < |p.cyclesLim|
        invariant c <= |p.cyclesLim| && Start(p.cyclesLim, c) <= |p.cycles|
        invariant more == used + VariablesIn(p.cycles, 0, Start(p.cyclesLim, c))
        invariant sets.Valid() && Components(sets.nodes, links + LinksIn(p.cycles, p.inverse, 0, Start(p.cyclesLim, c)))
        invariant Lists(symmetrics, more) && more <= sets.nodes.Keys
      {
        var a, b := Start(p.cyclesLim, c), p.cyclesLim[c];
        ghost var sofar := links + LinksIn(p.cycles, p.inverse, 0, a);
        more := AddCycle(p, c, sets, more, sofar);
        PartsJoin(p.cycles, p.inverse, a, b);
        assert sofar + LinksIn(p.cycles, p.inverse, a, b) == links + LinksIn(p.cycles, p.inverse, 0, b);
        c := c + 1;
      }
    }

    /** The listed variables are the moved ones; two of them share an orbit exactly when a chain of
        generator images connects them. */
    method Assign(permutations: seq<Permutation>)
      requires forall p :: p in permutations ==> p.Closed()
      modifies this
      ensures NoRepeats(symmetrics) && forall v :: v in symmetrics <==> Moved(Images(permutations), v)
      ensures AreOrbits(orbits, symmetrics, LinksOf(Images(permutations)))
    {
      hide Lists, Components, AreLinks, AreMoved, AreOrbits, Ranked, Root, Weighed, Roots, LinksIn, VariablesIn,
        Tables, LinksOf, Moved, DisjointSets.Valid;
      var sets := new DisjointSets();
      var used: set<nat> := {};
      symmetrics, orbits := [], [];
      ghost var links: Links := {};
      ghost var images: seq<map<Literal, Literal>> := [];
      NoForest(sets.nodes);
      var i := 0;
      while i < |permutations|
        invariant i <= |permutations| && |images| == i && forall k :: 0 <= k < i ==> images[k] == permutations[k].image
        invariant fresh(sets) && sets.Valid() && Components(sets.nodes, links) && AreLinks(images, links)
        invariant Lists(symmetrics, used) && used <= sets.nodes.Keys && AreMoved(images, used)
      {
        var p := permutations[i];
        LinksNext(images, links, p);
        MovedNext(images, used, p);
        used := AddGenerator(p, sets, used, links);
        images := images + [p.image];
        links := links + LinksIn(p.cycles, p.inverse, 0, |p.cycles|);
        i := i + 1;
      }
      assert images == Images(permutations);
      CollectOrbits(sets, used, links);
      ListsAll(symmetrics, used);
      MovedAre(images, used);
      LinksAre(images, links);
    }

    method CollectOrbits(sets: DisjointSets, ghost used: set<nat>, ghost links: Links)
      requires sets.Valid() && Components(sets.nodes, links) && Lists(symmetrics, used) && used <= sets.nodes.Keys
      modifies this`orbits, sets
      ensures AreOrbits(orbits, symmetrics, links)
    {
      hide Ranked, Root, Weighed, Roots, Components, Grouped, SameSets, AreOrbits, Listed;
      RankedComponents(sets.nodes, links);
      ghost var f := sets.nodes;
      var groups: map<nat, seq<nat>> := map[];
      SameSetsRefl(f);
      GroupedNone(f, symmetrics);
      ListsAll(symmetrics, used);
      var k := 0;
      while k < |symmetrics|
        invariant k <= |symmetrics| && Grouped(f, symmetrics, k, groups)
        invariant sets.Valid() && SameSets(f, sets.nodes)
      {
        var variable := symmetrics[k];
        SameSetsAt(f, sets.nodes, variable);
        ghost var before := sets.nodes;
        var representant := sets.Find(variable);
        SameSetsTrans(f, before, sets.nodes);
        ghost var group := if representant in groups then groups[representant] + [variable] else [variable];
        ghost var more := groups[representant := group];
        GroupedNext(f, symmetrics, k, groups, more);
        if representant !in groups {
          groups := groups[representant := []];
        }
        groups := groups[representant := groups[representant] + [variable]];
        assert [] + [variable] == [variable];
        assert groups == more;
        k := k + 1;
      }
      orbits := [];
      var keys := groups.Keys;
      ghost var reps: seq<nat> := [];
      ListedNone(groups);
      while keys != {}
        invariant keys <= groups.Keys && Listed(groups, keys, reps, orbits)
        decreases keys
      {
        var r :| r in keys;
        ListedNext(groups, keys, reps, orbits, r);
        orbits := orbits + [groups[r]];
        reps := reps + [r];
        keys := keys - {r};
      }
      GroupsAreOrbits(f, symmetrics, groups, reps, orbits, links);
    }

    static method AddElement(sets: DisjointSets, e: nat, ghost links: Links)
      requires sets.Valid() && Components(sets.nodes, links)
      modifies sets
      ensures sets.Valid() && sets.nodes.Keys == old(sets.nodes.Keys) + {e} && Components(sets.nodes, links)
    {
      hide Ranked, Root, Components;
      sets.Add(e);
      AddedComponents(old(sets.nodes), sets.nodes, links, e);
    }

    static method AddLink(sets: DisjointSets, e: nat, i: nat, ghost links: Links)
      requires sets.Valid() && e in sets.nodes && Components(sets.nodes, links)
      modifies sets
      ensures sets.Valid() && sets.nodes.Keys == old(sets.nodes.Keys) + {i} && Components(sets.nodes, links + {(e, i)})
    {
      hide Ranked, Root, Components, Merged;
      AddElement(sets, i, links);
      ghost var middle := sets.nodes;
      sets.Union(e, i);
      ComponentsUnion(middle, sets.nodes, links, e, i);
    }
  }

  /** The predecessors' variables at positions `a` up to `b`. */
  ghost function SourcesIn(cycles: seq<Literal>, inverse: map<Literal, Literal>, a: nat, b: nat): set<nat>
    requires b <= |cycles|
  {
    set j | a <= j < b && cycles[j] in inverse :: inverse[cycles[j]].variable
  }

  lemma SourcesAreVariables(cycles: seq<Literal>, lim: seq<nat>, image: map<Literal, Literal>,
                            inverse: map<Literal, Literal>, c: nat)
    requires Tables(cycles, lim, image, inverse) && Start(lim, |lim|) == |cycles| && c < |lim|
    ensures lim[c] <= |cycles|
    ensures SourcesIn(cycles, inverse, Start(lim, c), lim[c]) == VariablesIn(cycles, Start(lim, c), lim[c])
  {
    LimitsFit(cycles, lim, image, inverse);
    var a, b := Start(lim, c), lim[c];
    hide *;
    forall v ensures v in VariablesIn(cycles, a, b) <==> v in SourcesIn(cycles, inverse, a, b) {
      if v in VariablesIn(cycles, a, b) {
        VariableIsSource(cycles, lim, image, inverse, c, v);
      }
      if v in SourcesIn(cycles, inverse, a, b) {
        SourceIsVariable(cycles, lim, image, inverse, c, v);
      }
    }
  }

  lemma VariableIsSource(cycles: seq<Literal>, lim: seq<nat>, image: map<Literal, Literal>,
                         inverse: map<Literal, Literal>, c: nat, v: nat)
    requires Tables(cycles, lim, image, inverse) && Start(lim, |lim|) == |cycles| && c < |lim| && lim[c] <= |cycles|
    requires v in VariablesIn(cycles, Start(lim, c), lim[c])
    ensures v in SourcesIn(cycles, inverse, Start(lim, c), lim[c])
  {
    hide Tables;
    var a, b := Start(lim, c), lim[c];
    var i :| a <= i < b && cycles[i].variable == v;
    var k := if i == b - 1 then a else i + 1;
    Predecessor(cycles, lim, image, inverse, c, k);
    assert inverse[cycles[k]].variable == v;
  }

  lemma SourceIsVariable(cycles: seq<Literal>, lim: seq<nat>, image: map<Literal, Literal>,
                         inverse: map<Literal, Literal>, c: nat, v: nat)
    requires Tables(cycles, lim, image, inverse) && Start(lim, |lim|) == |cycles| && c < |lim| && lim[c] <= |cycles|
    requires v in SourcesIn(cycles, inverse, Start(lim, c), lim[c])
    ensures v in VariablesIn(cycles, Start(lim, c), lim[c])
  {
    hide Tables;
    var a, b := Start(lim, c), lim[c];
    var j :| a <= j < b && cycles[j] in inverse && inverse[cycles[j]].variable == v;
    Predecessor(cycles, lim, image, inverse, c, j);
  }

  lemma GroupedNone(f: Forest, s: seq<nat>)
    requires Ranked(f)
    ensures Grouped(f, s, 0, map[])
  {
  }

  lemma ListedNone(groups: map<nat, seq<nat>>)
    ensures Listed(groups, groups.Keys, [], [])
  {
  }

  lemma ListedNext(groups: map<nat, seq<nat>>, keys: set<nat>, reps: seq<nat>, orbits: seq<seq<nat>>, r: nat)
    requires Listed(groups, keys, reps, orbits) && r in keys && r in groups
    ensures Listed(groups, keys - {r}, reps + [r], orbits + [groups[r]])
  {
    forall q | q in groups ensures q in keys - {r} || q in reps + [r] {
      if q in reps {
        var i :| 0 <= i < |reps| && reps[i] == q;
        assert (reps + [r])[i] == q;
      } else if q == r {
        assert (reps + [r])[|reps|] == q;
      }
    }
  }

  lemma ListsAll(s: seq<nat>, vs: set<nat>)
    requires Lists(s, vs)
    ensures NoRepeats(s) && forall v :: v in s <==> v in vs
  {
  }

  ghost function Images(ps: seq<Permutation>): (r: seq<map<Literal, Literal>>)
    reads ps
    ensures |r| == |ps| && forall i :: 0 <= i < |ps| ==> r[i] == ps[i].image
  {
    if ps == [] then [] else Images(ps[..|ps| - 1]) + [ps[|ps| - 1].image]
  }

  ghost function LinksOf(images: seq<map<Literal, Literal>>): Links {
    set i, l | 0 <= i < |images| && l in images[i] :: (l.variable, images[i][l].variable)
  }

  lemma LinksAre(images: seq<map<Literal, Literal>>, links: Links)
    requires AreLinks(images, links)
    ensures links == LinksOf(images)
  {
    forall u: nat, v: nat ensures (u, v) in LinksOf(images) <==> Sends(images, u, v) {
      if Sends(images, u, v) {
        var i, l :| 0 <= i < |images| && Link(images[i], l, u, v);
        assert l in images[i];
      }
      if (u, v) in LinksOf(images) {
        var i, l: Literal :| 0 <= i < |images| && l in images[i] && (l.variable, images[i][l].variable) == (u, v);
        assert Link(images[i], l, u, v);
      }
    }
    forall x: (nat, nat) ensures x in links <==> x in LinksOf(images) {
      assert x == (x.0, x.1);
    }
  }

  lemma MovedAre(images: seq<map<Literal, Literal>>, vs: set<nat>)
    requires AreMoved(images, vs)
    ensures forall v :: v in vs <==> Moved(images, v)
  {
  }

  lemma NoForest(f: Forest)
    requires f == map[] && Ranked(f)
    ensures Components(f, {}) && AreLinks([], {}) && Lists([], {}) && AreMoved([], {})
  {
  }

  lemma MovedNext(images: seq<map<Literal, Literal>>, used: set<nat>, p: Permutation)
    requires p.Closed() && AreMoved(images, used)
    ensures AreMoved(images + [p.image], used + VariablesIn(p.cycles, 0, |p.cycles|))
  {
    hide Tables;
    TablesFit(p.cycles, p.cyclesLim, p.image, p.inverse);
    var more := images + [p.image];
    forall v ensures v in used + VariablesIn(p.cycles, 0, |p.cycles|) <==> Moved(more, v) {
      if v in used {
        var i, l: Literal :| 0 <= i < |images| && l in images[i] && l.variable == v;
        assert more[i] == images[i];
      }
      if v in VariablesIn(p.cycles, 0, |p.cycles|) {
        var i :| 0 <= i < |p.cycles| && p.cycles[i].variable == v;
        assert more[|images|] == p.image && p.cycles[i] in more[|images|];
      }
      if Moved(more, v) {
        var i, l: Literal :| 0 <= i < |more| && l in more[i] && l.variable == v;
        if i < |images| {
          assert l in images[i];
        } else {
          var k :| 0 <= k < |p.cycles| && p.cycles[k] == l;
        }
      }
    }
  }

  lemma NothingIn(cycles: seq<Literal>, inverse: map<Literal, Literal>, a: nat)
    requires a <= |cycles|
    ensures LinksIn(cycles, inverse, a, a) == {} && VariablesIn(cycles, a, a) == {}
  {
  }

  lemma PartsJoin(cycles: seq<Literal>, inverse: map<Literal, Literal>, a: nat, b: nat)
    requires a <= b <= |cycles|
    ensures LinksIn(cycles, inverse, 0, a) + LinksIn(cycles, inverse, a, b) == LinksIn(cycles, inverse, 0, b)
    ensures VariablesIn(cycles, 0, a) + VariablesIn(cycles, a, b) == VariablesIn(cycles, 0, b)
  {
  }

  lemma NoLinks(cycles: seq<Literal>, inverse: map<Literal, Literal>, a: nat)
    requires a <= |cycles|
    ensures LinksIn(cycles, inverse, a, a) == {} && SourcesIn(cycles, inverse, a, a) == {}
  {
  }

  lemma AddedComponents(f: Forest, g: Forest, links: Links, x: nat)
    requires Components(f, links) && Ranked(g)
    requires forall a, b :: Together(g, a, b) <==> Together(f, a, b) || (a == x && b == x)
    ensures Components(g, links)
  {
    hide Components, Root, Ranked;
    RankedComponents(f, links);
    ComponentsAdd(f, g, links, x);
  }

  lemma RankedComponents(f: Forest, links: Links)
    requires Components(f, links)
    ensures Ranked(f)
  {
  }

  lemma LinksInNext(cycles: seq<Literal>, inverse: map<Literal, Literal>, a: nat, k: nat)
    requires a <= k < |cycles| && cycles[k] in inverse
    ensures LinksIn(cycles, inverse, a, k + 1) ==
              LinksIn(cycles, inverse, a, k) + {(inverse[cycles[k]].variable, cycles[k].variable)}
    ensures SourcesIn(cycles, inverse, a, k + 1) == SourcesIn(cycles, inverse, a, k) + {inverse[cycles[k]].variable}
  {
  }
}