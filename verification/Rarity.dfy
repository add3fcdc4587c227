/** Rarely moved variables. */
module Rarity {
  // Which variables the BreakID order may list next, in terms of the tables of the remaining generators.

  import opened Logic
  import opened Picking
  import P = OrbitPartition

  type Image = map<Literal, Literal>

  /** How many tables move the variable. */
  ghost function MoversIn(images: seq<Image>, v: nat): nat {
    if images == [] then 0
    else MoversIn(images[..|images| - 1], v) + if Literal(v, true) in images[|images| - 1] then 1 else 0
  }

  /** With a literal its negation is moved. */
  ghost predicate BothSigns(images: seq<Image>) {
    forall i, v :: 0 <= i < |images| ==> (Literal(v, true) in images[i] <==> Literal(v, false) in images[i])
  }

  /** Something is moved, and with a literal its negation. */
  ghost predicate BalancedTable(image: Image, n: nat) {
    (exists l :: l in image) && (forall l :: l in image ==> l.variable < n) &&
    forall v :: Literal(v, true) in image <==> Literal(v, false) in image
  }

  ghost predicate Balanced(images: seq<Image>, n: nat) {
    forall i :: 0 <= i < |images| ==> BalancedTable(images[i], n)
  }

  lemma BalancedMean(images: seq<Image>, n: nat)
    requires Balanced(images, n)
    ensures BothSigns(images) && (images != [] ==> MovedVariables(images) != {})
  {
    forall i, v | 0 <= i < |images| ensures Literal(v, true) in images[i] <==> Literal(v, false) in images[i] {
      assert BalancedTable(images[i], n);
    }
    if images != [] {
      assert BalancedTable(images[0], n);
      var l :| l in images[0];
      assert l.variable in MovedVariables(images);
    }
  }

  lemma BalancedMoves(images: seq<Image>, n: nat, v: nat) returns (i: nat)
    requires Balanced(images, n) && v in MovedVariables(images)
    ensures v < n && i < |images| && Literal(v, true) in images[i]
  {
    var k, l: Literal :| 0 <= k < |images| && l in images[k] && l.variable == v;
    assert BalancedTable(images[k], n);
    assert l == Literal(v, true) || l == Literal(v, false);
    i := k;
  }

  ghost function MovedVariables(images: seq<Image>): set<nat> {
    set i, l | 0 <= i < |images| && l in images[i] :: l.variable
  }

  ghost function OrbitOf(images: seq<Image>, v: nat): set<nat> {
    set w | w in MovedVariables(images) && P.Connected(P.LinksOf(images), v, w)
  }

  ghost predicate RarerIn(images: seq<Image>, v: nat, w: nat) {
    MoversIn(images, v) < MoversIn(images, w) || (MoversIn(images, v) == MoversIn(images, w) && v < w)
  }

  /** Among the moved variables whose orbit is as large as its own, none is rarer. */
  ghost predicate RarestIn(images: seq<Image>, v: nat) {
    v in MovedVariables(images) &&
    forall w :: w in MovedVariables(images) && |OrbitOf(images, w)| >= |OrbitOf(images, v)| ==>
                  w == v || RarerIn(images, v, w)
  }

  lemma RarestMoved(images: seq<Image>, v: nat)
    requires RarestIn(images, v)
    ensures v in MovedVariables(images)
  {
  }

  /** The tables that leave the literal alone. */
  ghost function Leaving(images: seq<Image>, l: Literal): seq<Image> {
    if images == [] then []
    else Leaving(images[..|images| - 1], l) + if l in images[|images| - 1] then [] else [images[|images| - 1]]
  }

  ghost function Remaining(images: seq<Image>, order: seq<Literal>): seq<Image> {
    if order == [] then images else Leaving(Remaining(images, order[..|order| - 1]), order[|order| - 1])
  }

  /** Every listed variable is one of the rarest for the tables that move none listed before it. */
  ghost predicate RarestFirst(images: seq<Image>, order: seq<Literal>) {
    forall i :: 0 <= i < |order| ==> RarestIn(Remaining(images, order[..i]), order[i].variable)
  }

  lemma RarestNext(images: seq<Image>, order: seq<Literal>, l: Literal)
    requires RarestFirst(images, order) && RarestIn(Remaining(images, order), l.variable)
    ensures RarestFirst(images, order + [l])
    ensures Remaining(images, order + [l]) == Leaving(Remaining(images, order), l)
  {
    hide Remaining, RarestIn;
    var more := order + [l];
    assert more[..|order|] == order;
    forall i | 0 <= i < |more| ensures RarestIn(Remaining(images, more[..i]), more[i].variable) {
      if i < |order| {
        assert more[..i] == order[..i];
        assert RarestIn(Remaining(images, order[..i]), order[i].variable);
      }
    }
    RemainingNext(images, order, l);
  }

  lemma RemainingNext(images: seq<Image>, order: seq<Literal>, l: Literal)
    ensures Remaining(images, order + [l]) == Leaving(Remaining(images, order), l)
  {
    assert (order + [l])[..|order|] == order;
  }

  lemma MovedMore(images: seq<Image>, v: nat)
    requires BothSigns(images) && images != []
    ensures BothSigns(images[..|images| - 1])
    ensures v in MovedVariables(images) <==>
            v in MovedVariables(images[..|images| - 1]) || Literal(v, true) in images[|images| - 1]
  {
    var k, l := |images| - 1, Literal(v, true);
    var front := images[..k];
    forall i, u | 0 <= i < k ensures Literal(u, true) in front[i] <==> Literal(u, false) in front[i] {
      assert front[i] == images[i];
    }
    if v in MovedVariables(images) {
      var i, x: Literal :| 0 <= i < |images| && x in images[i] && x.variable == v;
      assert x == l || x == Literal(v, false);
      assert i < k ==> x in front[i];
    }
    if v in MovedVariables(front) {
      var i, x: Literal :| 0 <= i < k && x in front[i] && x.variable == v;
      assert x in images[i];
    }
    if l in images[k] {
      assert l.variable in MovedVariables(images);
    }
  }

  lemma {:induction false} MovedCounted(images: seq<Image>, v: nat)
    requires BothSigns(images)
    ensures v in MovedVariables(images) <==> MoversIn(images, v) > 0
  {
    hide BothSigns;
    if images != [] {
      MovedMore(images, v);
      MovedCounted(images[..|images| - 1], v);
    }
  }

  /** The orbits computed, and the counts, mean what they should. */
  ghost predicate Computed(images: seq<Image>, occ: map<nat, nat>, orbits: seq<seq<nat>>, symmetrics: seq<nat>) {
    BothSigns(images) && (forall v :: CountOf(occ, v) == MoversIn(images, v)) &&
    (forall v :: v in symmetrics <==> P.Moved(images, v)) && P.AreOrbits(orbits, symmetrics, P.LinksOf(images))
  }

  lemma MovedIs(images: seq<Image>, v: nat)
    ensures P.Moved(images, v) <==> v in MovedVariables(images)
  {
  }

  lemma OrbitComputed(images: seq<Image>, occ: map<nat, nat>, orbits: seq<seq<nat>>, symmetrics: seq<nat>, i: nat,
                      v: nat)
    requires Computed(images, occ, orbits, symmetrics) && i < |orbits| && v in orbits[i]
    ensures |orbits[i]| == |OrbitOf(images, v)| && v in MovedVariables(images)
  {
    hide P.LinksOf, P.Moved, P.Connected, MovedVariables;
    forall w ensures w in ElementsOf(orbits[i]) <==> w in OrbitOf(images, v) {
      MovedIs(images, w);
      if w in OrbitOf(images, v) {
        assert w in symmetrics;
        var j :| 0 <= j < |orbits| && w in orbits[j];
      }
    }
    MovedIs(images, v);
    NoRepeatsSize(orbits[i]);
    assert ElementsOf(orbits[i]) == OrbitOf(images, v);
  }

  lemma OrbitHolds(images: seq<Image>, occ: map<nat, nat>, orbits: seq<seq<nat>>, symmetrics: seq<nat>, w: nat)
    returns (j: nat)
    requires Computed(images, occ, orbits, symmetrics) && w in MovedVariables(images)
    ensures j < |orbits| && w in orbits[j]
  {
    hide P.LinksOf, P.Moved, P.Connected, MovedVariables;
    MovedIs(images, w);
    assert w in symmetrics;
    var i :| 0 <= i < |orbits| && w in orbits[i];
    j := i;
  }

  /** The scan finds one of the rarest variables, if any is moved. */
  lemma ScanFindsRarest(images: seq<Image>, occ: map<nat, nat>, orbits: seq<seq<nat>>, symmetrics: seq<nat>)
    requires Computed(images, occ, orbits, symmetrics) && MovedVariables(images) != {}
    ensures Scan(occ, orbits).next.Pick? && RarestIn(images, Scan(occ, orbits).next.variable)
  {
    hide MoversIn, MovedVariables, OrbitOf, P.AreOrbits, Scan, NoRarer;
    forall i, v | 0 <= i < |orbits| && v in orbits[i] ensures CountOf(occ, v) > 0 {
      OrbitComputed(images, occ, orbits, symmetrics, i, v);
      MovedCounted(images, v);
    }
    ScanPicks(occ, orbits);
    var x :| x in MovedVariables(images);
    var k := OrbitHolds(images, occ, orbits, symmetrics, x);
    var v := Scan(occ, orbits).next.variable;
    var i: nat :| EligibleIn(occ, orbits, v, i);
    OrbitComputed(images, occ, orbits, symmetrics, i, v);
    forall w | w in MovedVariables(images) && |OrbitOf(images, w)| >= |OrbitOf(images, v)|
      ensures w == v || RarerIn(images, v, w)
    {
      var j := OrbitHolds(images, occ, orbits, symmetrics, w);
      OrbitComputed(images, occ, orbits, symmetrics, j, w);
      NoneOf(occ, v, w, orbits[j]);
    }
  }

  lemma NoneOf(occ: map<nat, nat>, v: nat, w: nat, orbit: seq<nat>)
    requires NoRarer(occ, v, orbit) && w in orbit
    ensures w == v || Rarer(occ, v, w)
  {
  }
}
