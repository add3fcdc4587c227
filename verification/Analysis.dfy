/** Conflict analysis: resolution along the trail, as sets of seen variables. */
module Analysis {
  import opened Logic
  import opened Trails

  /** A model of the clauses that agrees with the assignments of level 0. */
  ghost predicate Fits(m: Model, ca: Clauses, t: Trail) {
    ModelsAll(m, ca) && forall i :: 0 <= i < |t.lits| && Level(t, t.lits[i].variable) == 0 ==> Holds(m, t.lits[i])
  }

  predicate Differs(m: Model, t: Trail, v: nat) { v in t.assigns && m(v) != t.assigns[v] }

  ghost predicate DiffersIn(m: Model, t: Trail, s: set<nat>) { exists v :: v in s && Differs(m, t, v) }

  /** The trail's values of these variables together contradict the clauses. */
  ghost predicate Cuts(ca: Clauses, t: Trail, s: set<nat>) {
    forall m: Model :: Fits(m, ca, t) ==> DiffersIn(m, t, s)
  }

  /** Only the first literal of a decision level lacks a reason. */
  ghost predicate Decisive(t: Trail) {
    forall i {:trigger t.lits[i]} ::
      0 <= i < |t.lits| && Level(t, t.lits[i].variable) > 0 && ReasonOf(t, t.lits[i].variable).NoReason? ==>
      Level(t, t.lits[i].variable) <= |t.lim| && t.lim[Level(t, t.lits[i].variable) - 1] == i
  }

  /** Variables of the literals from slot `a` to before slot `b` that are above level 0. */
  ghost function High(t: Trail, c: Clause, a: nat, b: nat): set<nat> {
    set k | a <= k < b && k < |c| && Level(t, c[k].variable) > 0 :: c[k].variable
  }

  lemma HighNext(t: Trail, c: Clause, a: nat, b: nat)
    requires a <= b < |c|
    ensures High(t, c, a, b + 1) == High(t, c, a, b) + if Level(t, c[b].variable) > 0 then {c[b].variable} else {}
    ensures High(t, c, a, a) == {}
  {
  }

  lemma FalseLiteralDiffers(ca: Clauses, t: Trail, m: Model, l: Literal)
    requires Ok(t) && Fits(m, ca, t) && IsFalse(t, l) && Holds(m, l)
    ensures Level(t, l.variable) > 0 && Differs(m, t, l.variable)
  {
    hide Pos;
    var i := Locate(t, l);
  }

  lemma ConflictCuts(ca: Clauses, t: Trail, cr: nat)
    requires Ok(t) && cr in ca && forall l :: l in ca[cr] ==> IsFalse(t, l)
    ensures Cuts(ca, t, High(t, ca[cr], 0, |ca[cr]|))
  {
    hide Ok, Pos;
    var c := ca[cr];
    forall m: Model | Fits(m, ca, t) ensures DiffersIn(m, t, High(t, c, 0, |c|)) {
      var l :| l in c && Holds(m, l);
      FalseLiteralDiffers(ca, t, m, l);
      var k :| 0 <= k < |c| && c[k] == l;
      assert c[k].variable in High(t, c, 0, |c|);
    }
  }

  /** Replacing a variable by those its reason depends on. */
  lemma ResolveCuts(ca: Clauses, t: Trail, s: set<nat>, i: nat, cr: nat)
    requires Ok(t) && Reasoned(ca, t) && i < |t.lits| && Cuts(ca, t, s + {t.lits[i].variable})
    requires ReasonOf(t, t.lits[i].variable) == Because(cr)
    ensures cr in ca && Cuts(ca, t, s + High(t, ca[cr], 1, |ca[cr]|))
  {
    assert ReasonAt(ca, t, i);
    var v, c := t.lits[i].variable, ca[cr];
    forall m: Model | Fits(m, ca, t) ensures DiffersIn(m, t, s + High(t, c, 1, |c|)) {
      var u :| u in s + {v} && Differs(m, t, u);
      if u !in s {
        ReasonDiffers(ca, t, m, i, cr);
      }
    }
  }

  lemma ReasonDiffers(ca: Clauses, t: Trail, m: Model, i: nat, cr: nat)
    requires Ok(t) && Reasoned(ca, t) && Fits(m, ca, t) && i < |t.lits|
    requires ReasonOf(t, t.lits[i].variable) == Because(cr) && Differs(m, t, t.lits[i].variable)
    ensures cr in ca
    ensures exists k :: 1 <= k < |ca[cr]| && Level(t, ca[cr][k].variable) > 0 && Differs(m, t, ca[cr][k].variable)
    ensures DiffersIn(m, t, High(t, ca[cr], 1, |ca[cr]|))
  {
    hide Pos;
    assert ReasonAt(ca, t, i);
    var c := ca[cr];
    var l :| l in c && Holds(m, l);
    var k :| 0 <= k < |c| && c[k] == l;
    assert IsTrue(t, t.lits[i]);
    assert k != 0;
    assert FalseBefore(t, c[k], i);
    assert IsTrue(t, t.lits[Pos(t.lits, l.variable)]);
    FalseLiteralDiffers(ca, t, m, l);
    assert c[k].variable in High(t, c, 1, |c|);
  }

  ghost function Current(t: Trail, s: set<nat>): set<nat> { set v | v in s && Level(t, v) == |t.lim| }

  ghost function Lower(out: seq<Literal>): set<nat> { set k | 1 <= k < |out| :: out[k].variable }

  /** The literals collected so far are the seen variables below the current level. */
  ghost predicate Collected(t: Trail, s: set<nat>, out: seq<Literal>) {
    |out| > 0 && Lower(out) == s - Current(t, s) &&
    (forall v :: v in s ==> v in t.assigns && 0 < Level(t, v) <= |t.lim|) &&
    (forall k :: 1 <= k < |out| ==> IsFalse(t, out[k])) &&
    (forall j, k :: 1 <= j < k < |out| ==> out[j].variable != out[k].variable)
  }

  lemma CollectedLower(t: Trail, s: set<nat>, out: seq<Literal>, q: Literal)
    requires Collected(t, s, out) && IsFalse(t, q) && 0 < Level(t, q.variable) < |t.lim| && q.variable !in s
    ensures Collected(t, s + {q.variable}, out + [q])
    ensures Current(t, s + {q.variable}) == Current(t, s)
  {
    assert Current(t, s + {q.variable}) == Current(t, s);
    var more := out + [q];
    forall v ensures v in Lower(more) <==> v in Lower(out) + {q.variable} {
      if v in Lower(out) {
        var k :| 1 <= k < |out| && out[k].variable == v;
        assert more[k].variable == v;
      }
      assert more[|out|] == q;
    }
    assert forall k :: 1 <= k < |out| ==> out[k].variable in Lower(out);
  }

  lemma CollectedCurrent(t: Trail, s: set<nat>, out: seq<Literal>, v: nat)
    requires Collected(t, s, out) && v in t.assigns && 0 < Level(t, v) == |t.lim| && v !in s
    ensures Collected(t, s + {v}, out) && Current(t, s + {v}) == Current(t, s) + {v}
  {
    assert Current(t, s + {v}) == Current(t, s) + {v};
  }

  lemma CollectedResolved(t: Trail, s: set<nat>, out: seq<Literal>, v: nat)
    requires Collected(t, s, out) && v in Current(t, s)
    ensures Collected(t, s - {v}, out) && Current(t, s - {v}) == Current(t, s) - {v}
  {
    assert Current(t, s - {v}) == Current(t, s) - {v};
  }

  /** All seen variables of the current level are at or before a position. */
  ghost predicate Under(t: Trail, s: set<nat>, n: int) {
    forall v :: v in Current(t, s) ==> Pos(t.lits, v) < n
  }

  lemma CurrentPosition(t: Trail, s: set<nat>, out: seq<Literal>, v: nat)
    requires Ok(t) && Collected(t, s, out) && v in Current(t, s)
    ensures Start(t) <= Pos(t.lits, v) < |t.lits| && t.lits[Pos(t.lits, v)].variable == v
  {
    hide Pos;
    var i := Locate(t, Literal(v, true));
    CurrentLevel(t, i);
  }

  /** Not the oldest literal of the current level, so it has a reason. */
  lemma HasReason(t: Trail, i: nat, j: nat)
    requires Ok(t) && Decisive(t) && Start(t) <= j < i < |t.lits| && t.lim != []
    ensures ReasonOf(t, t.lits[i].variable).Because?
  {
    hide Pos;
    CurrentLevel(t, i);
  }

  /** The reason's other literals are false and older. */
  lemma ReasonOlder(ca: Clauses, t: Trail, i: nat, cr: nat)
    requires Ok(t) && Reasoned(ca, t) && i < |t.lits| && ReasonOf(t, t.lits[i].variable) == Because(cr)
    ensures cr in ca && ca[cr] != [] && ca[cr][0] == t.lits[i]
    ensures forall k :: 1 <= k < |ca[cr]| ==>
              IsFalse(t, ca[cr][k]) && Pos(t.lits, ca[cr][k].variable) < i &&
                Level(t, ca[cr][k].variable) <= Level(t, t.lits[i].variable)
  {
    hide Pos;
    assert ReasonAt(ca, t, i);
    forall k | 1 <= k < |ca[cr]|
      ensures IsFalse(t, ca[cr][k]) && Pos(t.lits, ca[cr][k].variable) < i
      ensures Level(t, ca[cr][k].variable) <= Level(t, t.lits[i].variable)
    {
      assert FalseBefore(t, ca[cr][k], i);
      var j := Pos(t.lits, ca[cr][k].variable);
      assert IsTrue(t, t.lits[j]);
      LevelsGrow(t, j, i);
    }
  }

  /** A literal that follows from seen ones: its reason's other literals are seen or of level 0. */
  ghost predicate Follows(ca: Clauses, t: Trail, s: set<nat>, v: nat) {
    var r := ReasonOf(t, v);
    r.Because? && r.cref in ca && High(t, ca[r.cref], 1, |ca[r.cref]|) <= s
  }

  /** Every seen variable is kept or follows from seen ones. */
  ghost predicate Supported(ca: Clauses, t: Trail, s: set<nat>, kept: set<nat>) {
    forall v {:trigger Follows(ca, t, s, v)} :: v in s ==> v in t.assigns && (v in kept || Follows(ca, t, s, v))
  }

  /** By the order of the trail, a model that differs at a seen variable differs at a kept one. */
  lemma {:induction false} KeptDiffers(ca: Clauses, t: Trail, s: set<nat>, kept: set<nat>, m: Model, v: nat)
    requires Ok(t) && Reasoned(ca, t) && Supported(ca, t, s, kept) && Fits(m, ca, t)
    requires v in s && Differs(m, t, v)
    ensures DiffersIn(m, t, kept)
    decreases Pos(t.lits, v)
  {
    hide Pos, Ok, Reasoned, Fits;
    if v !in kept {
      assert Follows(ca, t, s, v);
      var cr := ReasonOf(t, v).cref;
      var i := Locate(t, Literal(v, true));
      ReasonDiffers(ca, t, m, i, cr);
      ReasonOlder(ca, t, i, cr);
      var k :| 1 <= k < |ca[cr]| && Level(t, ca[cr][k].variable) > 0 && Differs(m, t, ca[cr][k].variable);
      assert ca[cr][k].variable in High(t, ca[cr], 1, |ca[cr]|);
      KeptDiffers(ca, t, s, kept, m, ca[cr][k].variable);
    }
  }

  /** Dropping the redundant literals leaves an implied clause. */
  lemma KeptCuts(ca: Clauses, t: Trail, s: set<nat>, kept: set<nat>, u: nat)
    requires Ok(t) && Reasoned(ca, t) && Supported(ca, t, s, kept) && Cuts(ca, t, s + {u})
    ensures Cuts(ca, t, kept + {u})
  {
    hide Pos, Ok, Reasoned, Fits, Supported;
    forall m: Model | Fits(m, ca, t) ensures DiffersIn(m, t, kept + {u}) {
      var v :| v in s + {u} && Differs(m, t, v);
      if v in s {
        KeptDiffers(ca, t, s, kept, m, v);
      }
    }
  }

  ghost function VariablesOf(c: Clause): set<nat> { set k | 0 <= k < |c| :: c[k].variable }

  /** The clause of the opposite values is implied. */
  lemma CutImplies(ca: Clauses, t: Trail, c: Clause, m: Model)
    requires Cuts(ca, t, VariablesOf(c)) && (forall l :: l in c ==> IsFalse(t, l)) && Fits(m, ca, t)
    ensures Satisfies(m, c)
  {
    var v :| v in VariablesOf(c) && Differs(m, t, v);
    var k :| 0 <= k < |c| && c[k].variable == v;
    assert c[k] in c && Holds(m, c[k]);
  }

  /** A clause that is false, with a literal of the current level. */
  ghost predicate IsConflict(t: Trail, c: Clause) {
    (forall l :: l in c ==> IsFalse(t, l)) && exists l :: l in c && Level(t, l.variable) == |t.lim|
  }

  // ---------------------------------------------------------------- the first literal to carry the conflict alone

  /** The variables above level 0 that carry the conflict once everything from position `j` on is
      replaced by its reason. */
  ghost function Front(ca: Clauses, t: Trail, c: Clause, j: nat): set<nat>
    requires j <= |t.lits|
    decreases |t.lits| - j
  {
    if j == |t.lits| then High(t, c, 0, |c|)
    else
      var s, v := Front(ca, t, c, j + 1), t.lits[j].variable;
      var r := ReasonOf(t, v);
      if v in s && r.Because? && r.cref in ca then s - {v} + High(t, ca[r.cref], 1, |ca[r.cref]|) else s
  }

  /** From position `i` the variable there is the only one of the current level, and no other variable is
      from any later position. */
  ghost predicate IsFirstUIP(ca: Clauses, t: Trail, c: Clause, i: nat) {
    i < |t.lits| && Current(t, Front(ca, t, c, i + 1)) == {t.lits[i].variable} &&
    NoneAlone(ca, t, c, i, t.lits[i].variable)
  }

  ghost predicate NoneAlone(ca: Clauses, t: Trail, c: Clause, i: nat, u: nat) {
    forall j: nat, v: nat {:trigger Alone(ca, t, c, j, v)} :: i < j <= |t.lits| && Alone(ca, t, c, j, v) ==> v == u
  }

  ghost predicate Alone(ca: Clauses, t: Trail, c: Clause, j: nat, v: nat) {
    j <= |t.lits| && Current(t, Front(ca, t, c, j)) == {v}
  }

  /** Down to position `n` more than one variable of the current level is left. */
  ghost predicate Shared(ca: Clauses, t: Trail, c: Clause, n: int) {
    forall j: nat, v: nat {:trigger Alone(ca, t, c, j, v)} :: n < j <= |t.lits| ==> !Alone(ca, t, c, j, v)
  }

  lemma {:induction false} FrontSame(ca: Clauses, t: Trail, c: Clause, i: nat, j: nat, k: nat)
    requires i <= k <= j <= |t.lits| && forall x :: i <= x < j ==> t.lits[x].variable !in Front(ca, t, c, j)
    ensures Front(ca, t, c, k) == Front(ca, t, c, j)
    decreases j - k
  {
    if k < j {
      FrontSame(ca, t, c, i, j, k + 1);
    }
  }

  lemma FrontNext(ca: Clauses, t: Trail, c: Clause, i: nat)
    requires i < |t.lits| && t.lits[i].variable in Front(ca, t, c, i + 1)
    requires ReasonOf(t, t.lits[i].variable).Because? && ReasonOf(t, t.lits[i].variable).cref in ca
    ensures var cr := ReasonOf(t, t.lits[i].variable).cref;
            Front(ca, t, c, i) ==
              Front(ca, t, c, i + 1) - {t.lits[i].variable} + High(t, ca[cr], 1, |ca[cr]|)
  {
  }

  /** What is seen is the front; the last seen literal is at position `i`. */
  lemma FrontAtLast(ca: Clauses, t: Trail, c: Clause, s: set<nat>, i: nat, index: nat)
    requires Ok(t) && i <= index < |t.lits| && s == Front(ca, t, c, index + 1) && Under(t, s, i + 1) && Start(t) <= i
    requires t.lits[i].variable in Current(t, s) && Shared(ca, t, c, index + 1)
    ensures s == Front(ca, t, c, i + 1)
    ensures |Current(t, s)| > 1 ==> Shared(ca, t, c, i)
    ensures |Current(t, s)| <= 1 ==> IsFirstUIP(ca, t, c, i)
  {
    hide Pos, Front, Ok;
    forall x | i + 1 <= x < index + 1 ensures t.lits[x].variable !in s {
      NotSeenAt(t, s, i, x);
    }
    forall k | i + 1 <= k <= index + 1 ensures Front(ca, t, c, k) == s {
      FrontSame(ca, t, c, i + 1, index + 1, k);
    }
    var u := t.lits[i].variable;
    if |Current(t, s)| <= 1 {
      OneElement(Current(t, s), u);
    }
  }

  lemma OneElement(s: set<nat>, u: nat)
    requires u in s && |s| <= 1
    ensures s == {u}
  {
    SubsetSize({u}, s);
  }

  lemma NotSeenAt(t: Trail, s: set<nat>, i: nat, x: nat)
    requires Ok(t) && Under(t, s, i + 1) && i < x < |t.lits| && Start(t) <= i
    ensures t.lits[x].variable !in s
  {
    hide Pos;
    PosAt(t.lits, x);
    CurrentLevel(t, x);
  }

  lemma FrontBegins(ca: Clauses, t: Trail, c: Clause)
    ensures Front(ca, t, c, |t.lits|) == High(t, c, 0, |c|) && Shared(ca, t, c, |t.lits|)
  {
  }

  /** All literals of the current level are of one variable. */
  ghost predicate SoleCurrent(t: Trail, c: Clause) {
    forall k, l :: k in c && l in c && Level(t, k.variable) == Level(t, l.variable) == |t.lim| ==>
      k.variable == l.variable
  }

  lemma SoleIsSingle(t: Trail, c: Clause)
    requires SoleCurrent(t, c)
    ensures |Current(t, High(t, c, 0, |c|))| <= 1
  {
    var s := Current(t, High(t, c, 0, |c|));
    if s != {} {
      var v :| v in s;
      forall u | u in s ensures u == v {
        var i :| 0 <= i < |c| && c[i].variable == v;
        var j :| 0 <= j < |c| && c[j].variable == u;
        assert c[i] in c && c[j] in c;
      }
      assert s == {v};
    }
  }

  /** With one literal of the current level in the conflict nothing is resolved. */
  lemma {:induction false} SoleFront(ca: Clauses, t: Trail, c: Clause, i: nat, k: nat)
    requires Ok(t) && IsFirstUIP(ca, t, c, i) && SoleCurrent(t, c) && i < k <= |t.lits|
    ensures Front(ca, t, c, k) == High(t, c, 0, |c|)
    ensures Front(ca, t, c, i + 1) - {t.lits[i].variable} + {t.lits[i].variable} == Front(ca, t, c, i + 1)
    decreases |t.lits| - k
  {
    hide Pos, Ok, SoleCurrent, High;
    FirstIn(ca, t, c, i);
    if k < |t.lits| {
      SoleFront(ca, t, c, i, k + 1);
      hide IsFirstUIP;
      NotInFront(ca, t, c, i, k);
    }
  }

  lemma FirstIn(ca: Clauses, t: Trail, c: Clause, i: nat)
    requires IsFirstUIP(ca, t, c, i)
    ensures t.lits[i].variable in Front(ca, t, c, i + 1) && Level(t, t.lits[i].variable) == |t.lim|
  {
    hide Front;
    assert t.lits[i].variable in Current(t, Front(ca, t, c, i + 1));
  }

  lemma NotInFront(ca: Clauses, t: Trail, c: Clause, i: nat, k: nat)
    requires Ok(t) && IsFirstUIP(ca, t, c, i) && SoleCurrent(t, c) && i < k < |t.lits|
    requires Front(ca, t, c, k + 1) == High(t, c, 0, |c|)
    ensures t.lits[k].variable !in Front(ca, t, c, k + 1)
  {
    hide Pos, Ok, SoleCurrent, High, Front, IsFirstUIP;
    FirstIn(ca, t, c, i);
    LaterIsCurrent(t, i, k);
    SoleIsSingle(t, c);
    var v := t.lits[k].variable;
    if v in Front(ca, t, c, k + 1) {
      OneElement(Current(t, Front(ca, t, c, k + 1)), v);
      AloneIsFirst(ca, t, c, i, k + 1, v);
    }
  }

  lemma AloneIsFirst(ca: Clauses, t: Trail, c: Clause, i: nat, j: nat, v: nat)
    requires IsFirstUIP(ca, t, c, i) && i < j <= |t.lits| && Current(t, Front(ca, t, c, j)) == {v}
    ensures v == t.lits[i].variable
  {
    hide Front;
    assert Alone(ca, t, c, j, v);
  }

  lemma LaterIsCurrent(t: Trail, i: nat, k: nat)
    requires Ok(t) && i <= k < |t.lits| && Level(t, t.lits[i].variable) == |t.lim|
    ensures Level(t, t.lits[k].variable) == |t.lim|
    ensures i < k ==> t.lits[i].variable != t.lits[k].variable
  {
    hide Pos;
    LevelsGrow(t, i, k);
  }

  lemma FalseLevel(t: Trail, l: Literal)
    requires Ok(t) && IsFalse(t, l)
    ensures l.variable in t.assigns && Level(t, l.variable) <= |t.lim|
  {
    hide Pos;
    var i := Locate(t, l);
  }

  lemma ConflictStarts(ca: Clauses, t: Trail, cr: nat)
    requires Ok(t) && cr in ca && IsConflict(t, ca[cr]) && t.lim != []
    ensures Current(t, High(t, ca[cr], 0, |ca[cr]|)) != {}
    ensures Cuts(ca, t, High(t, ca[cr], 0, |ca[cr]|))
    ensures forall l :: l in ca[cr] ==> IsFalse(t, l) && Level(t, l.variable) <= |t.lim|
  {
    hide Ok;
    ConflictCuts(ca, t, cr);
    var l :| l in ca[cr] && Level(t, l.variable) == |t.lim|;
    var k :| 0 <= k < |ca[cr]| && ca[cr][k] == l;
    assert l.variable in High(t, ca[cr], 0, |ca[cr]|);
    assert l.variable in Current(t, High(t, ca[cr], 0, |ca[cr]|));
    forall k | k in ca[cr] ensures IsFalse(t, k) && Level(t, k.variable) <= |t.lim| {
      FalseLevel(t, k);
    }
  }

  predicate Assigned(t: Trail, l: Literal) { IsFalse(t, l) && Level(t, l.variable) <= |t.lim| }

  lemma AssignedMeans(t: Trail, l: Literal)
    requires Assigned(t, l)
    ensures IsFalse(t, l) && l.variable in t.assigns && Level(t, l.variable) <= |t.lim|
  {
  }

  lemma SeenNext(t: Trail, before: set<nat>, s: set<nat>, c: Clause, a: nat, b: nat)
    requires a <= b < |c| && s == before + High(t, c, a, b)
    ensures before + High(t, c, a, b + 1) ==
              if c[b].variable !in s && Level(t, c[b].variable) > 0 then s + {c[b].variable} else s
  {
    HighNext(t, c, a, b);
  }

  lemma HighNone(t: Trail, c: Clause, a: nat)
    ensures High(t, c, a, a) == {}
  {
  }

  lemma CurrentNot(t: Trail, s: set<nat>, v: nat)
    requires v !in s
    ensures v !in Current(t, s)
  {
  }

  lemma UnderNext(t: Trail, s: set<nat>, out: seq<Literal>, i: nat)
    requires Ok(t) && Collected(t, s, out) && i < |t.lits| && Under(t, s, i + 1) && t.lits[i].variable !in s
    ensures Under(t, s, i)
    ensures forall v :: v in Current(t, s) ==> Pos(t.lits, v) <= i - 1
  {
    hide Pos;
    forall v | v in Current(t, s) ensures Pos(t.lits, v) < i {
      CurrentPosition(t, s, out, v);
    }
  }

  lemma SeenIsCurrent(t: Trail, s: set<nat>, i: nat)
    requires Ok(t) && Start(t) <= i < |t.lits| && t.lits[i].variable in s
    ensures t.lits[i].variable in Current(t, s)
  {
    CurrentLevel(t, i);
  }

  /** A clause whose literals from slot `from` on are to be resolved with what is seen. */
  ghost predicate Pending(ca: Clauses, t: Trail, s: set<nat>, cr: nat, from: nat, n: int) {
    cr in ca && from <= |ca[cr]| && (forall k :: from <= k < |ca[cr]| ==> Assigned(t, ca[cr][k])) &&
    var more := s + High(t, ca[cr], from, |ca[cr]|);
    Cuts(ca, t, more) && Current(t, more) != {} && Under(t, more, n)
  }

  lemma PendingClause(ca: Clauses, t: Trail, s: set<nat>, cr: nat, from: nat, n: int)
    requires Pending(ca, t, s, cr, from, n)
    ensures cr in ca && from <= |ca[cr]| && forall k :: from <= k < |ca[cr]| ==> Assigned(t, ca[cr][k])
    ensures var more := s + High(t, ca[cr], from, |ca[cr]|);
            Cuts(ca, t, more) && Current(t, more) != {} && Under(t, more, n)
  {
  }

  lemma NothingCollected(t: Trail, out: seq<Literal>)
    requires |out| == 1
    ensures Collected(t, {}, out) && Current(t, {}) == {}
  {
  }

  lemma UnderAll(ca: Clauses, t: Trail, cr: nat)
    requires Ok(t) && cr in ca && IsConflict(t, ca[cr]) && t.lim != []
    ensures Pending(ca, t, {}, cr, 0, |t.lits|)
  {
    hide Pos, Cuts, Current, High;
    ConflictStarts(ca, t, cr);
    var s := High(t, ca[cr], 0, |ca[cr]|);
    assert {} + s == s;
    HighAssigned(t, ca[cr]);
  }

  lemma HighAssigned(t: Trail, c: Clause)
    requires Ok(t) && forall l :: l in c ==> IsFalse(t, l)
    ensures Under(t, High(t, c, 0, |c|), |t.lits|)
  {
    hide Pos;
    forall v | v in Current(t, High(t, c, 0, |c|)) ensures Pos(t.lits, v) < |t.lits| {
      var k :| 0 <= k < |c| && c[k].variable == v;
      assert IsFalse(t, c[k]);
    }
  }

  /** The latest seen literal is taken out of the seen ones. */
  lemma LastResolved(ca: Clauses, t: Trail, s: set<nat>, out: seq<Literal>, i: nat)
    requires Ok(t) && Collected(t, s, out) && i < |t.lits| && t.lits[i].variable in Current(t, s)
    requires Under(t, s, i + 1) && Cuts(ca, t, s)
    ensures var v := t.lits[i].variable;
            IsTrue(t, t.lits[i]) && Level(t, v) == |t.lim| && v in s && v in Current(t, s) &&
            Collected(t, s - {v}, out) && Current(t, s - {v}) == Current(t, s) - {v} &&
            Under(t, s - {v}, i) && Cuts(ca, t, s - {v} + {v})
  {
    hide Pos, Cuts;
    var v := t.lits[i].variable;
    CollectedResolved(t, s, out, v);
    assert s - {v} + {v} == s;
    forall u | u in Current(t, s - {v}) ensures Pos(t.lits, u) < i {
      CurrentPosition(t, s, out, u);
    }
  }

  /** While another seen literal of the current level is left, this one has a reason. */
  lemma NextReason(ca: Clauses, t: Trail, s: set<nat>, out: seq<Literal>, i: nat)
    requires Ok(t) && Reasoned(ca, t) && Decisive(t) && t.lim != [] && Collected(t, s, out) && i < |t.lits|
    requires Current(t, s) != {} && Under(t, s, i) && Cuts(ca, t, s + {t.lits[i].variable})
    requires Level(t, t.lits[i].variable) == |t.lim|
    ensures var r := ReasonOf(t, t.lits[i].variable);
            r.Because? && Pending(ca, t, s, r.cref, 1, i)
  {
    hide Pos, Ok, Reasoned, Decisive, Cuts;
    var u :| u in Current(t, s);
    CurrentPosition(t, s, out, u);
    HasReason(t, i, Pos(t.lits, u));
    var cr := ReasonOf(t, t.lits[i].variable).cref;
    ReasonOlder(ca, t, i, cr);
    ResolveCuts(ca, t, s, i, cr);
    var c := ca[cr];
    var more := s + High(t, c, 1, |c|);
    assert u in Current(t, more);
    forall v | v in Current(t, more) ensures Pos(t.lits, v) < i {
      if v !in s {
        var k :| 1 <= k < |c| && c[k].variable == v;
      } else {
        assert v in Current(t, s);
      }
    }
  }

  /** A clause to be resolved with what is seen, which together are what carries the conflict from
      position `n` on. */
  ghost predicate Resolving(ca: Clauses, t: Trail, c0: Clause, s: set<nat>, cr: nat, from: nat, n: int) {
    Pending(ca, t, s, cr, from, n) && 0 <= n <= |t.lits| &&
    s + High(t, ca[cr], from, |ca[cr]|) == Front(ca, t, c0, n) && Shared(ca, t, c0, n)
  }

  lemma ResolvingBegins(ca: Clauses, t: Trail, cr: nat)
    requires Ok(t) && cr in ca && IsConflict(t, ca[cr]) && t.lim != []
    ensures Resolving(ca, t, ca[cr], {}, cr, 0, |t.lits|)
  {
    hide Pos, Ok, IsConflict, Pending;
    UnderAll(ca, t, cr);
    FrontBegins(ca, t, ca[cr]);
  }

  lemma ResolvingClause(ca: Clauses, t: Trail, c0: Clause, s: set<nat>, cr: nat, from: nat, n: int)
    requires Resolving(ca, t, c0, s, cr, from, n)
    ensures cr in ca && from <= |ca[cr]| && forall k :: from <= k < |ca[cr]| ==> Assigned(t, ca[cr][k])
    ensures var more := s + High(t, ca[cr], from, |ca[cr]|);
            Cuts(ca, t, more) && Current(t, more) != {} && Under(t, more, n) &&
            0 <= n <= |t.lits| && more == Front(ca, t, c0, n) && Shared(ca, t, c0, n)
  {
    PendingClause(ca, t, s, cr, from, n);
  }

  lemma ResolvingNext(ca: Clauses, t: Trail, c0: Clause, s: set<nat>, out: seq<Literal>, i: nat)
    requires Ok(t) && Reasoned(ca, t) && Decisive(t) && t.lim != [] && i < |t.lits|
    requires s == Front(ca, t, c0, i + 1) && t.lits[i].variable in s && Shared(ca, t, c0, i)
    requires var v := t.lits[i].variable;
             Collected(t, s - {v}, out) && Current(t, s - {v}) != {} && Under(t, s - {v}, i) &&
             Cuts(ca, t, s - {v} + {v}) && Level(t, v) == |t.lim|
    ensures var r := ReasonOf(t, t.lits[i].variable);
            r.Because? && Resolving(ca, t, c0, s - {t.lits[i].variable}, r.cref, 1, i)
  {
    hide Ok, Reasoned, Decisive, Collected, Current, Under, Cuts, Front, Shared, High;
    NextReason(ca, t, s - {t.lits[i].variable}, out, i);
    FrontNext(ca, t, c0, i);
  }

  lemma CollectedFirst(t: Trail, s: set<nat>, out: seq<Literal>, p: Literal)
    requires Collected(t, s, out)
    ensures |out| > 0 && Collected(t, s, out[0 := p])
  {
    forall v ensures v in Lower(out[0 := p]) <==> v in Lower(out) {
      if v in Lower(out) {
        var k :| 1 <= k < |out| && out[k].variable == v;
        assert out[0 := p][k].variable == v;
      }
    }
  }
}
