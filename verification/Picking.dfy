/** The variable BreakID lists next. */
module Picking {
  // A scan over the orbits that prefers rare variables and never looks at an orbit smaller than that of its pick.

  import opened Logic

  datatype Pick = NoPick | Pick(variable: nat)

  /** The best variable so far and the size of its orbit. */
  datatype Scanned = Scanned(next: Pick, largest: nat)

  function CountOf(occ: map<nat, nat>, v: nat): nat { if v in occ then occ[v] else 0 }

  /** Fewer occurrences, or as many and a smaller index. */
  predicate Rarer(occ: map<nat, nat>, v: nat, w: nat) {
    CountOf(occ, v) < CountOf(occ, w) || (CountOf(occ, v) == CountOf(occ, w) && v < w)
  }

  function ScanStep(occ: map<nat, nat>, size: nat, s: Scanned, v: nat): Scanned {
    if CountOf(occ, v) == 0 then s
    else if s.next.NoPick? || Rarer(occ, v, s.next.variable) then Scanned(Pick(v), size)
    else s
  }

  function ScanOrbit(occ: map<nat, nat>, orbit: seq<nat>, size: nat, s: Scanned): Scanned {
    if orbit == [] then s
    else ScanStep(occ, size, ScanOrbit(occ, orbit[..|orbit| - 1], size, s), orbit[|orbit| - 1])
  }

  /** The whole scan, in the order in which the orbits come. */
  function Scan(occ: map<nat, nat>, orbits: seq<seq<nat>>): Scanned {
    if orbits == [] then Scanned(NoPick, 0)
    else
      var s, last := Scan(occ, orbits[..|orbits| - 1]), orbits[|orbits| - 1];
      if |last| < s.largest then s else ScanOrbit(occ, last, |last|, s)
  }

  ghost predicate AllCounted(occ: map<nat, nat>, orbits: seq<seq<nat>>) {
    forall i, v :: 0 <= i < |orbits| && v in orbits[i] ==> CountOf(occ, v) > 0
  }

  predicate NoRarer(occ: map<nat, nat>, v: nat, orbit: seq<nat>) {
    forall w :: w in orbit ==> w == v || Rarer(occ, v, w)
  }

  /** No orbit as large as that of `v` has a rarer variable. */
  ghost predicate EligibleIn(occ: map<nat, nat>, orbits: seq<seq<nat>>, v: nat, i: nat) {
    i < |orbits| && v in orbits[i] &&
    forall j :: 0 <= j < |orbits| && |orbits[j]| >= |orbits[i]| ==> NoRarer(occ, v, orbits[j])
  }

  ghost predicate Eligible(occ: map<nat, nat>, orbits: seq<seq<nat>>, v: nat) {
    exists i: nat :: EligibleIn(occ, orbits, v, i)
  }

  lemma {:induction false} OrbitScanned(occ: map<nat, nat>, orbit: seq<nat>, size: nat, s: Scanned)
    requires forall v :: v in orbit ==> CountOf(occ, v) > 0
    ensures var r := ScanOrbit(occ, orbit, size, s);
            if r.next.NoPick? then s.next.NoPick? && orbit == [] && r == s
            else NoRarer(occ, r.next.variable, orbit) &&
                 (r == s || (r.next.variable in orbit && r.largest == size)) &&
                 (s.next.Pick? ==> r.next == s.next || Rarer(occ, r.next.variable, s.next.variable))
  {
    if orbit != [] {
      var front, last := orbit[..|orbit| - 1], orbit[|orbit| - 1];
      OrbitScanned(occ, front, size, s);
      assert orbit == front + [last];
    }
  }

  /** Whatever the order of the orbits, the pick is eligible, and there is one. */
  lemma {:induction false} ScanPicks(occ: map<nat, nat>, orbits: seq<seq<nat>>)
    requires AllCounted(occ, orbits)
    ensures var s := Scan(occ, orbits);
            if s.next.NoPick? then s.largest == 0 && forall i :: 0 <= i < |orbits| ==> orbits[i] == []
            else exists i: nat :: EligibleIn(occ, orbits, s.next.variable, i) && |orbits[i]| == s.largest
  {
    if orbits != [] {
      var k := |orbits| - 1;
      var front, last := orbits[..k], orbits[k];
      assert AllCounted(occ, front);
      ScanPicks(occ, front);
      var s, r := Scan(occ, front), Scan(occ, orbits);
      assert orbits[k] == last;
      hide NoRarer;
      if s.next.Pick? {
        var v := s.next.variable;
        var i: nat :| EligibleIn(occ, front, v, i) && |front[i]| == s.largest;
        if |last| < s.largest {
          assert EligibleIn(occ, orbits, v, i);
        } else {
          OrbitScanned(occ, last, |last|, s);
          if r == s {
            assert EligibleIn(occ, orbits, v, i);
          } else {
            forall j | 0 <= j < |orbits| && |orbits[j]| >= |last| ensures NoRarer(occ, r.next.variable, orbits[j]) {
              if j < k {
                assert NoRarer(occ, v, front[j]);
                RarerThanAll(occ, r.next.variable, v, orbits[j]);
              }
            }
            assert EligibleIn(occ, orbits, r.next.variable, k);
          }
        }
      } else {
        OrbitScanned(occ, last, |last|, s);
        if r.next.Pick? {
          assert forall j :: 0 <= j < k ==> orbits[j] == front[j];
          assert EligibleIn(occ, orbits, r.next.variable, k);
        }
      }
    }
  }

  lemma RarerThanAll(occ: map<nat, nat>, u: nat, v: nat, orbit: seq<nat>)
    requires u == v || Rarer(occ, u, v)
    requires NoRarer(occ, v, orbit)
    ensures NoRarer(occ, u, orbit)
  {
  }

  lemma {:induction false} OrbitKeeps(occ: map<nat, nat>, orbit: seq<nat>, size: nat, s: Scanned)
    requires s.next.Pick? && NoRarer(occ, s.next.variable, orbit)
    ensures ScanOrbit(occ, orbit, size, s) == s
  {
    if orbit != [] {
      var front, last := orbit[..|orbit| - 1], orbit[|orbit| - 1];
      assert orbit == front + [last] && last in orbit;
      OrbitKeeps(occ, front, size, s);
    }
  }

  lemma {:induction false} ScanKeeps(occ: map<nat, nat>, first: seq<seq<nat>>, rest: seq<seq<nat>>, s: Scanned)
    requires Scan(occ, first) == s && s.next.Pick?
    requires forall j :: 0 <= j < |rest| && |rest[j]| >= s.largest ==> NoRarer(occ, s.next.variable, rest[j])
    ensures Scan(occ, first + rest) == s
    decreases |rest|
  {
    hide NoRarer;
    if rest == [] {
      assert first + rest == first;
    } else {
      var k := |rest| - 1;
      ScanKeeps(occ, first, rest[..k], s);
      assert (first + rest)[..|first| + k] == first + rest[..k];
      if |rest[k]| >= s.largest {
        OrbitKeeps(occ, rest[k], |rest[k]|, s);
      }
    }
  }

  /** And every eligible variable is the pick for some order of the orbits. */
  lemma EligiblePicked(occ: map<nat, nat>, orbits: seq<seq<nat>>, v: nat) returns (scanned: seq<seq<nat>>)
    requires AllCounted(occ, orbits) && Eligible(occ, orbits, v)
    ensures multiset(scanned) == multiset(orbits) && Scan(occ, scanned).next == Pick(v)
  {
    var i: nat :| EligibleIn(occ, orbits, v, i);
    var o := orbits[i];
    scanned := [o] + (orbits[..i] + orbits[i + 1..]);
    assert orbits == orbits[..i] + [o] + orbits[i + 1..];
    var none := Scanned(NoPick, 0);
    assert [o] == [] + [o] && Scan(occ, []) == none;
    assert Scan(occ, [o]) == ScanOrbit(occ, o, |o|, none);
    OrbitScanned(occ, o, |o|, none);
    var s := Scan(occ, [o]);
    assert s == Scanned(Pick(v), |o|);
    hide NoRarer;
    var rest := orbits[..i] + orbits[i + 1..];
    forall j | 0 <= j < |rest| && |rest[j]| >= s.largest ensures NoRarer(occ, v, rest[j]) {
      assert rest[j] == orbits[if j < i then j else j + 1];
    }
    ScanKeeps(occ, [o], rest, s);
  }

  ghost predicate InLargest(orbits: seq<seq<nat>>, v: nat) {
    exists i :: 0 <= i < |orbits| && v in orbits[i] && forall j :: 0 <= j < |orbits| ==> |orbits[j]| <= |orbits[i]|
  }

  ghost predicate Rarest(occ: map<nat, nat>, orbits: seq<seq<nat>>, v: nat) {
    (exists i :: 0 <= i < |orbits| && v in orbits[i]) && forall j :: 0 <= j < |orbits| ==> NoRarer(occ, v, orbits[j])
  }

  /** The comment promises a variable of the largest orbit.  The scan keeps this in every order of the
      orbits if and only if the rarest variable of all is in a largest orbit. */
  lemma LargestExactly(occ: map<nat, nat>, orbits: seq<seq<nat>>, rarest: nat)
    requires AllCounted(occ, orbits) && Rarest(occ, orbits, rarest)
    ensures InLargest(orbits, rarest) <==>
            forall scanned: seq<seq<nat>> | multiset(scanned) == multiset(orbits) ::
              Scan(occ, scanned).next.Pick? && InLargest(orbits, Scan(occ, scanned).next.variable)
  {
    hide NoRarer;
    if InLargest(orbits, rarest) {
      forall scanned: seq<seq<nat>> | multiset(scanned) == multiset(orbits)
        ensures Scan(occ, scanned).next.Pick? && InLargest(orbits, Scan(occ, scanned).next.variable)
      {
        PicksRarest(occ, orbits, scanned, rarest);
      }
    } else {
      var i :| 0 <= i < |orbits| && rarest in orbits[i];
      assert EligibleIn(occ, orbits, rarest, i);
      var scanned := EligiblePicked(occ, orbits, rarest);
    }
  }

  lemma Rearranged(orbits: seq<seq<nat>>, scanned: seq<seq<nat>>)
    requires multiset(scanned) == multiset(orbits)
    ensures forall o :: o in scanned <==> o in orbits
  {
    forall o ensures o in scanned <==> o in orbits {
      assert o in multiset(scanned) <==> o in multiset(orbits);
    }
  }

  lemma PicksRarest(occ: map<nat, nat>, orbits: seq<seq<nat>>, scanned: seq<seq<nat>>, rarest: nat)
    requires AllCounted(occ, orbits) && Rarest(occ, orbits, rarest) && InLargest(orbits, rarest)
    requires multiset(scanned) == multiset(orbits)
    ensures Scan(occ, scanned).next == Pick(rarest)
  {
    Rearranged(orbits, scanned);
    forall i, v | 0 <= i < |scanned| && v in scanned[i] ensures CountOf(occ, v) > 0 {
      assert scanned[i] in orbits;
    }
    ScanPicks(occ, scanned);
    var l :| 0 <= l < |orbits| && rarest in orbits[l] && forall j :: 0 <= j < |orbits| ==> |orbits[j]| <= |orbits[l]|;
    assert orbits[l] in scanned;
    var k :| 0 <= k < |scanned| && scanned[k] == orbits[l];
    var v := Scan(occ, scanned).next.variable;
    var i: nat :| EligibleIn(occ, scanned, v, i);
    assert scanned[i] in orbits;
    assert NoRarer(occ, v, scanned[k]);
    assert NoRarer(occ, rarest, scanned[i]);
  }
}
