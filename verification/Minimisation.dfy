/** Removing implied literals from a learnt clause. */
module Minimisation {
  import opened Logic
  import opened Trails
  import opened Analysis
  import opened Reaching

  /** While the reasons behind `v0` are explored: whatever became seen, and `v0`, follows from seen
      literals unless it is still on the stack. */
  ghost predicate Exploring(ca: Clauses, t: Trail, before: set<nat>, s: set<nat>, v0: nat, stack: seq<Literal>) {
    before <= s && v0 in t.assigns &&
    (forall v {:trigger Follows(ca, t, s, v)} :: v == v0 || v in s - before ==>
      v in t.assigns && (v in VariablesOf(stack) || Follows(ca, t, s, v))) &&
    (forall l :: l in stack ==> l.variable in t.assigns && ReasonOf(t, l.variable).Because?)
  }

  lemma ExploringBegins(ca: Clauses, t: Trail, s: set<nat>, p: Literal)
    requires p.variable in t.assigns && ReasonOf(t, p.variable).Because?
    ensures Exploring(ca, t, s, s, p.variable, [p])
  {
    assert [p][0].variable in VariablesOf([p]);
  }

  lemma ExploringPush(ca: Clauses, t: Trail, before: set<nat>, s: set<nat>, v0: nat, stack: seq<Literal>, l: Literal)
    requires Exploring(ca, t, before, s, v0, stack) && l.variable in t.assigns && ReasonOf(t, l.variable).Because?
    ensures Exploring(ca, t, before, s + {l.variable}, v0, stack + [l])
  {
    var more := stack + [l];
    forall v | v == v0 || v in s + {l.variable} - before
      ensures v in t.assigns && (v in VariablesOf(more) || Follows(ca, t, s + {l.variable}, v))
    {
      if v == l.variable {
        assert more[|stack|].variable == v;
      } else if v in VariablesOf(stack) {
        var k :| 0 <= k < |stack| && stack[k].variable == v;
        assert more[k].variable == v;
      } else {
        assert Follows(ca, t, s, v);
      }
    }
  }

  /** The literal in front of the stack has been dealt with. */
  lemma ExploringPop(ca: Clauses, t: Trail, before: set<nat>, s: set<nat>, v0: nat, stack: seq<Literal>, q: Literal)
    requires Exploring(ca, t, before, s, v0, [q] + stack) && Follows(ca, t, s, q.variable)
    ensures Exploring(ca, t, before, s, v0, stack)
  {
    forall v | v == v0 || v in s - before ensures v in t.assigns && (v in VariablesOf(stack) || Follows(ca, t, s, v)) {
      if v in VariablesOf([q] + stack) && v != q.variable {
        var k :| 0 <= k < |stack| + 1 && ([q] + stack)[k].variable == v;
        assert stack[k - 1].variable == v;
      } else {
        assert Follows(ca, t, s, v);
      }
    }
    forall l | l in stack ensures l.variable in t.assigns && ReasonOf(t, l.variable).Because? {
      assert l in [q] + stack;
    }
  }

  /** The last element of the stack is looked at next. */
  lemma ExploringLast(ca: Clauses, t: Trail, before: set<nat>, s: set<nat>, v0: nat, stack: seq<Literal>)
    requires Exploring(ca, t, before, s, v0, stack) && stack != []
    ensures var q := stack[|stack| - 1];
            Exploring(ca, t, before, s, v0, [q] + stack[..|stack| - 1]) && q.variable in t.assigns &&
              ReasonOf(t, q.variable).Because?
  {
    var q, rest := stack[|stack| - 1], stack[..|stack| - 1];
    forall v ensures v in VariablesOf(stack) ==> v in VariablesOf([q] + rest) {
      if v in VariablesOf(stack) {
        var k :| 0 <= k < |stack| && stack[k].variable == v;
        assert ([q] + rest)[if k == |stack| - 1 then 0 else k + 1].variable == v;
      }
    }
    forall v | v == v0 || v in s - before ensures v in t.assigns &&
      (v in VariablesOf([q] + rest) || Follows(ca, t, s, v)) {
      assert v in VariablesOf(stack) || Follows(ca, t, s, v);
    }
  }

  /** With nothing on the stack everything explored follows. */
  lemma ExploredFollows(ca: Clauses, t: Trail, before: set<nat>, s: set<nat>, v0: nat)
    requires Exploring(ca, t, before, s, v0, [])
    ensures forall v :: v == v0 || v in s - before ==> Follows(ca, t, s, v)
  {
    hide Follows;
  }

  lemma SupportedAt(ca: Clauses, t: Trail, s: set<nat>, kept: set<nat>, v: nat)
    requires Supported(ca, t, s, kept) && v in s
    ensures v in t.assigns && (v in kept || Follows(ca, t, s, v))
  {
    if Follows(ca, t, s, v) {
    }
  }

  /** All reasons explored: the literal follows, and so does everything that became seen. */
  lemma ExploringEnds(ca: Clauses, t: Trail, before: set<nat>, s: set<nat>, v0: nat, kept: set<nat>)
    requires Exploring(ca, t, before, s, v0, []) && Supported(ca, t, before, kept)
    ensures Supported(ca, t, s, kept - {v0})
  {
    forall v | v in s ensures v in t.assigns && (v in kept - {v0} || Follows(ca, t, s, v)) {
      if v != v0 && v in before && v !in kept {
        assert Follows(ca, t, before, v);
      } else if v == v0 || v !in before {
        assert Follows(ca, t, s, v);
      } else {
        SupportedAt(ca, t, before, kept, v);
      }
    }
  }

  /** The literals of a reason, except the one it forces. */
  lemma ReasonOpen(ca: Clauses, t: Trail, v: nat)
    requires Ok(t) && Reasoned(ca, t) && v in t.assigns && ReasonOf(t, v).Because?
    ensures ReasonOf(t, v).cref in ca
    ensures var c := ca[ReasonOf(t, v).cref];
            c != [] && forall k :: 1 <= k < |c| ==> c[k].variable in t.assigns
    ensures High(t, ca[ReasonOf(t, v).cref], 1, 1) == {}
  {
    hide Pos, Ok, Reasoned;
    var i := Locate(t, Literal(v, true));
    ReasonOlder(ca, t, i, ReasonOf(t, v).cref);
  }

  /** A false clause of distinct variables above level 0, the first one at the current level. */
  ghost predicate Learnt(t: Trail, c: Clause) {
    c != [] && Level(t, c[0].variable) == |t.lim| && IsFalse(t, c[0]) &&
    (forall k :: 1 <= k < |c| ==> IsFalse(t, c[k]) && 0 < Level(t, c[k].variable) < |t.lim|) &&
    (forall i, j :: 0 <= i < j < |c| ==> c[i].variable != c[j].variable)
  }

  lemma CollectedIsLearnt(ca: Clauses, t: Trail, s: set<nat>, out: seq<Literal>)
    requires Collected(t, s, out) && Current(t, s) == {} && IsFalse(t, out[0]) && Level(t, out[0].variable) == |t.lim|
    ensures Learnt(t, out) && Supported(ca, t, s, Lower(out)) && s == Lower(out)
  {
    assert Lower(out) == s;
    forall k | 1 <= k < |out| ensures 0 < Level(t, out[k].variable) < |t.lim| {
      assert out[k].variable in Lower(out);
      assert out[k].variable !in Current(t, s);
    }
  }

  lemma LearntDropped(t: Trail, c: Clause, j: nat)
    requires Learnt(t, c) && 1 <= j < |c|
    ensures Learnt(t, c[..j] + c[j + 1..]) && Lower(c[..j] + c[j + 1..]) == Lower(c) - {c[j].variable}
  {
    var d := c[..j] + c[j + 1..];
    assert forall k {:trigger d[k]} :: 0 <= k < |d| ==> d[k] == c[if k < j then k else k + 1];
    assert Learnt(t, d);
    forall v ensures v in Lower(d) <==> v in Lower(c) - {c[j].variable} {
      LowerDropped(t, c, j, v);
    }
  }

  lemma LowerDropped(t: Trail, c: Clause, j: nat, v: nat)
    requires Learnt(t, c) && 1 <= j < |c|
    ensures v in Lower(c[..j] + c[j + 1..]) <==> v in Lower(c) - {c[j].variable}
  {
    var d := c[..j] + c[j + 1..];
    if v in Lower(d) {
      var k :| 1 <= k < |d| && d[k].variable == v;
      assert d[k] == c[if k < j then k else k + 1];
    }
    if v in Lower(c) && v != c[j].variable {
      var k :| 1 <= k < |c| && c[k].variable == v;
      assert d[if k < j then k else k - 1] == c[k];
    }
  }

  /** What conflict analysis hands to the search. */
  ghost predicate Asserting(t: Trail, c: Clause, level: nat) {
    Learnt(t, c) && level < |t.lim| &&
    (forall k :: 1 <= k < |c| ==> Level(t, c[k].variable) <= level) &&
    (if |c| == 1 then level == 0 else Level(t, c[1].variable) == level)
  }

  ghost predicate Implied(ca: Clauses, t: Trail, c: Clause) {
    forall m: Model :: Fits(m, ca, t) ==> Satisfies(m, c)
  }

  lemma MinimisedImplied(ca: Clauses, t: Trail, s: set<nat>, c: Clause)
    requires Ok(t) && Reasoned(ca, t) && Learnt(t, c) && Supported(ca, t, s, Lower(c))
    requires Cuts(ca, t, s + {c[0].variable})
    ensures Implied(ca, t, c)
  {
    hide Ok, Reasoned, Supported, Fits;
    KeptCuts(ca, t, s, Lower(c), c[0].variable);
    assert Lower(c) + {c[0].variable} == VariablesOf(c);
    forall m: Model | Fits(m, ca, t) ensures Satisfies(m, c) {
      CutImplies(ca, t, c, m);
    }
  }

  /** Exchanging two literals after the first. */
  lemma LearntSwapped(ca: Clauses, t: Trail, c: Clause, i: nat)
    requires Learnt(t, c) && Implied(ca, t, c) && 1 <= i < |c|
    ensures Learnt(t, c[i := c[1]][1 := c[i]]) && Implied(ca, t, c[i := c[1]][1 := c[i]])
  {
    var d := c[i := c[1]][1 := c[i]];
    forall a, b | 0 <= a < b < |d| ensures d[a].variable != d[b].variable {
      var x := if a == i then 1 else if a == 1 then i else a;
      var y := if b == i then 1 else if b == 1 then i else b;
      assert d[a] == c[x] && d[b] == c[y] && x != y;
      assert if x < y then c[x].variable != c[y].variable else c[y].variable != c[x].variable;
    }
    forall m: Model | Fits(m, ca, t) ensures Satisfies(m, d) {
      hide Fits;
      var l :| l in c && Holds(m, l);
      var k :| 0 <= k < |c| && c[k] == l;
      assert d[if k == i then 1 else if k == 1 then i else k] == l;
    }
  }

  /** The variables that became seen are those of the literals added to the list of marks. */
  ghost predicate Marked(before: set<nat>, list: seq<Literal>, s: set<nat>, more: seq<Literal>) {
    |list| <= |more| && more[..|list|] == list && before <= s &&
    (forall v :: v in s - before <==> v in VariablesOf(more[|list|..])) && before !! VariablesOf(more[|list|..])
  }

  lemma MarkedNone(s: set<nat>, list: seq<Literal>)
    ensures Marked(s, list, s, list)
  {
  }

  lemma MarkedPrefix(before: set<nat>, list: seq<Literal>, s: set<nat>, more: seq<Literal>)
    requires Marked(before, list, s, more)
    ensures |list| <= |more| && more[..|list|] == list && Marked(before, more[..|list|], s, more)
  {
  }

  lemma NoVariables(c: Clause)
    requires c == []
    ensures VariablesOf(c) == {}
  {
  }

  lemma MarkedNext(before: set<nat>, list: seq<Literal>, s: set<nat>, more: seq<Literal>, l: Literal)
    requires Marked(before, list, s, more) && l.variable !in s
    ensures Marked(before, list, s + {l.variable}, more + [l])
  {
    assert (more + [l])[|list|..] == more[|list|..] + [l];
    VariablesAppend(more[|list|..], l);
  }

  lemma VariablesAppend(c: Clause, l: Literal)
    ensures VariablesOf(c + [l]) == VariablesOf(c) + {l.variable}
  {
    forall v ensures v in VariablesOf(c + [l]) <==> v in VariablesOf(c) + {l.variable} {
      if v in VariablesOf(c) {
        var k :| 0 <= k < |c| && c[k].variable == v;
        assert (c + [l])[k].variable == v;
      }
      assert (c + [l])[|c|] == l;
    }
  }

  lemma UnmarkNext(list: seq<Literal>, j: nat)
    requires j < |list|
    ensures VariablesOf(list[j..]) == {list[j].variable} + VariablesOf(list[j + 1..])
  {
    var c := list[j..];
    forall v ensures v in VariablesOf(c) <==> v in {list[j].variable} + VariablesOf(list[j + 1..]) {
      if v in VariablesOf(c) {
        var k :| 0 <= k < |c| && c[k].variable == v;
        assert k > 0 ==> list[j + 1..][k - 1] == c[k];
      }
      if v in VariablesOf(list[j + 1..]) {
        var k :| 0 <= k < |list[j + 1..]| && list[j + 1..][k].variable == v;
        assert c[k + 1].variable == v;
      }
      assert c[0] == list[j];
    }
  }

  lemma HighFollows(ca: Clauses, t: Trail, s: set<nat>, v: nat)
    requires var r := ReasonOf(t, v);
             r.Because? && r.cref in ca && High(t, ca[r.cref], 1, |ca[r.cref]|) <= s
    ensures Follows(ca, t, s, v)
  {
  }

  /** The literals still in the learnt clause while it is minimised. */
  ghost predicate Shrinking(ca: Clauses, t: Trail, s: set<nat>, c: Clause) {
    Learnt(t, c) && Supported(ca, t, s, Lower(c)) && Cuts(ca, t, s + {c[0].variable})
  }

  lemma ShrinkingDrop(ca: Clauses, t: Trail, before: set<nat>, s: set<nat>, c: Clause, j: nat)
    requires Shrinking(ca, t, before, c) && 1 <= j < |c| && Exploring(ca, t, before, s, c[j].variable, [])
    ensures Shrinking(ca, t, s, c[..j] + c[j + 1..])
  {
    LearntDropped(t, c, j);
    ExploringEnds(ca, t, before, s, c[j].variable, Lower(c));
    hide Fits, Supported, Learnt;
    forall m: Model | Fits(m, ca, t) ensures DiffersIn(m, t, s + {c[0].variable}) {
      assert DiffersIn(m, t, before + {c[0].variable});
    }
  }

  lemma FollowingExplored(ca: Clauses, t: Trail, s: set<nat>, p: Literal)
    requires p.variable in t.assigns && Follows(ca, t, s, p.variable)
    ensures Exploring(ca, t, s, s, p.variable, [])
  {
  }

  /** Modes 1 and 2 drop literals, but only ones that have a reason. */
  predicate Undroppable(t: Trail, l: Literal, ccminMode: int) {
    ccminMode !in {1, 2} || ReasonOf(t, l.variable).NoReason?
  }

  /** What a mode drops when `s` is marked: in mode 2 what depends only on marked literals through
      reasons and levels that occur there, in mode 1 what its reason alone derives from them. */
  ghost predicate Droppable(ca: Clauses, t: Trail, s: set<nat>, l: Literal, ccminMode: int) {
    if ccminMode == 2 then Removable(ca, t, s, Residues(t, s), l.variable)
    else if ccminMode == 1 then ReasonOf(t, l.variable).Because? && Follows(ca, t, s, l.variable)
    else false
  }

  /** `out` holds the first literal of `c` and exactly the others the mode does not drop. */
  ghost predicate Shortened(ca: Clauses, t: Trail, s: set<nat>, c: Clause, out: Clause, ccminMode: int) {
    c != [] && forall l :: l in out <==> l in c && (l == c[0] || !Droppable(ca, t, s, l, ccminMode))
  }

  lemma ShortenedMeans(ca: Clauses, t: Trail, s: set<nat>, c: Clause, out: Clause, ccminMode: int)
    requires Shortened(ca, t, s, c, out, ccminMode)
    ensures forall l :: l in out ==> l in c
    ensures forall l :: l in c && Undroppable(t, l, ccminMode) ==> l in out
  {
    hide Reaches;
  }

  /** While it is made: slots before `j` are decided, those from `i` on are to come. */
  ghost predicate Shortening(ca: Clauses, t: Trail, s: set<nat>, c: Clause, out: Clause, i: nat, j: nat,
                             ccminMode: int) {
    1 <= j <= i <= |out| == |c| && out[i..] == c[i..] && out[0] == c[0] &&
    (forall k :: 1 <= k < i ==> (c[k] in out[..j] <==> !Droppable(ca, t, s, c[k], ccminMode))) &&
    forall l :: l in out[..j] ==> l in c[..i]
  }

  lemma ShorteningBegins(ca: Clauses, t: Trail, s: set<nat>, c: Clause, ccminMode: int)
    requires c != []
    ensures Shortening(ca, t, s, c, c, 1, 1, ccminMode)
  {
  }

  lemma ShorteningKeep(ca: Clauses, t: Trail, s: set<nat>, c: Clause, out: Clause, i: nat, j: nat, ccminMode: int)
    requires Shortening(ca, t, s, c, out, i, j, ccminMode) && i < |out| && Clean(c)
    requires !Droppable(ca, t, s, out[i], ccminMode)
    ensures Shortening(ca, t, s, c, out[j := out[i]], i + 1, j + 1, ccminMode)
  {
    hide Droppable;
    var more := out[j := out[i]];
    assert out[i] == out[i..][0] == c[i];
    assert more[..j + 1] == out[..j] + [c[i]] && c[..i + 1] == c[..i] + [c[i]];
    assert more[i + 1..] == out[i..][1..] == c[i + 1..];
    forall k | 1 <= k < i + 1 ensures c[k] in more[..j + 1] <==> !Droppable(ca, t, s, c[k], ccminMode) {
      assert k < i ==> c[k].variable != c[i].variable;
    }
  }

  lemma ShorteningDrop(ca: Clauses, t: Trail, s: set<nat>, c: Clause, out: Clause, i: nat, j: nat, ccminMode: int)
    requires Shortening(ca, t, s, c, out, i, j, ccminMode) && i < |out| && Clean(c)
    requires Droppable(ca, t, s, out[i], ccminMode)
    ensures Shortening(ca, t, s, c, out, i + 1, j, ccminMode)
  {
    hide Droppable;
    assert out[i] == out[i..][0] == c[i];
    assert out[i + 1..] == out[i..][1..] == c[i + 1..] && c[..i + 1] == c[..i] + [c[i]];
  }

  lemma ShorteningEnds(ca: Clauses, t: Trail, s: set<nat>, c: Clause, out: Clause, j: nat, ccminMode: int)
    requires Shortening(ca, t, s, c, out, |out|, j, ccminMode)
    ensures Shortened(ca, t, s, c, out[..j], ccminMode)
  {
    hide Droppable;
    assert out[..j][0] == c[0] && c[..|c|] == c;
    forall l | l in c ensures l in out[..j] <==> l == c[0] || !Droppable(ca, t, s, l, ccminMode) {
      var k :| 0 <= k < |c| && c[k] == l;
    }
  }

  lemma ShorteningNothing(ca: Clauses, t: Trail, s: set<nat>, c: Clause, ccminMode: int)
    requires c != [] && Clean(c) && ccminMode !in {1, 2}
    ensures Shortening(ca, t, s, c, c, |c|, |c|, ccminMode)
  {
    assert c[..|c|] == c;
  }

  lemma DroppableDeeply(ca: Clauses, t: Trail, s: set<nat>, l: Literal)
    ensures Droppable(ca, t, s, l, 2) <==> Removable(ca, t, s, Residues(t, s), l.variable)
    ensures Droppable(ca, t, s, l, 2) ==> ReasonOf(t, l.variable).Because?
  {
    hide Reaches;
  }

  lemma DroppableByReason(ca: Clauses, t: Trail, s: set<nat>, l: Literal)
    ensures Droppable(ca, t, s, l, 1) <==> ReasonOf(t, l.variable).Because? && Follows(ca, t, s, l.variable)
  {
  }

  lemma MarkedMore(before: set<nat>, list: seq<Literal>, s: set<nat>, more: seq<Literal>)
    requires Marked(before, list, s, more)
    ensures before <= s
  {
  }

  lemma LearntClean(t: Trail, c: Clause)
    requires Learnt(t, c)
    ensures Clean(c) && c != []
  {
  }

  /** The same for a clause learnt from a conflict that needs no resolution: literals of level 0 go too. */
  ghost predicate LearntFrom(t: Trail, c: Clause, out: Clause, ccminMode: int) {
    (forall l :: l in out ==> l in c) &&
    forall l :: l in c && Level(t, l.variable) > 0 && Undroppable(t, l, ccminMode) ==> l in out
  }

  /** What is collected when the conflict has a single literal of the current level. */
  lemma SoleCollected(t: Trail, s: set<nat>, out: Clause, c: Clause)
    requires Collected(t, s, out) && Current(t, s) == {} && IsFalse(t, out[0]) && IsConflict(t, c)
    requires s + {out[0].variable} == High(t, c, 0, |c|)
    ensures forall l :: l in out <==> l in c && Level(t, l.variable) > 0
  {
    assert Lower(out) == s;
    forall l | l in out ensures l in c && Level(t, l.variable) > 0 {
      var k :| 0 <= k < |out| && out[k] == l;
      assert k > 0 ==> l.variable in Lower(out);
      assert l.variable in High(t, c, 0, |c|);
      var i :| 0 <= i < |c| && c[i].variable == l.variable && Level(t, c[i].variable) > 0;
      assert IsFalse(t, c[i]) && IsFalse(t, l);
    }
    forall l | l in c && Level(t, l.variable) > 0 ensures l in out {
      var i :| 0 <= i < |c| && c[i] == l;
      assert l.variable in High(t, c, 0, |c|);
      if l.variable in s {
        var k :| 1 <= k < |out| && out[k].variable == l.variable;
        assert IsFalse(t, out[k]) && out[k] == l;
      }
    }
  }

  /** The clause the analysis must find: the first literal of the current level that carries the conflict
      alone, and what else carries it, except for what the mode drops. */
  ghost predicate LearntExactly(ca: Clauses, t: Trail, c: Clause, learnt: Clause, ccminMode: int) {
    exists i :: LearntAtPoint(ca, t, c, learnt, ccminMode, i)
  }

  ghost predicate LearntAtPoint(ca: Clauses, t: Trail, c: Clause, learnt: Clause, ccminMode: int, i: nat) {
    IsFirstUIP(ca, t, c, i) && learnt != [] && learnt[0] == t.lits[i].Negated() &&
    var s := Front(ca, t, c, i + 1) - {t.lits[i].variable};
    forall l :: l in learnt <==>
      l == learnt[0] || (IsFalse(t, l) && l.variable in s && !Droppable(ca, t, s, l, ccminMode))
  }

  lemma ShortenedIsExact(ca: Clauses, t: Trail, c: Clause, s: set<nat>, first: Clause, out: Clause, learnt: Clause,
                         ccminMode: int, i: nat)
    requires IsFirstUIP(ca, t, c, i) && s == Front(ca, t, c, i + 1) - {t.lits[i].variable}
    requires Collected(t, s, first) && Current(t, s) == {} && first[0] == t.lits[i].Negated()
    requires Shortened(ca, t, s, first, out, ccminMode) && multiset(learnt) == multiset(out)
    requires learnt != [] && learnt[0] == first[0]
    ensures LearntExactly(ca, t, c, learnt, ccminMode)
  {
    hide IsFirstUIP, Front, Droppable, Lower;
    LowerIs(first);
    forall l ensures l in learnt <==>
        l == learnt[0] || (IsFalse(t, l) && l.variable in s && !Droppable(ca, t, s, l, ccminMode))
    {
      assert l in learnt <==> l in multiset(learnt);
      assert l in out <==> l in multiset(out);
      if l in first && l != first[0] {
        var k :| 1 <= k < |first| && first[k] == l;
      }
      if IsFalse(t, l) && l.variable in s {
        assert l.variable in Lower(first);
        var k :| 1 <= k < |first| && first[k].variable == l.variable;
        assert first[k] == l;
        FirstNotMarked(ca, t, c, s, i);
      }
    }
    assert LearntAtPoint(ca, t, c, learnt, ccminMode, i);
  }

  lemma LowerIn(c: Clause)
    ensures Lower(c) <= VariablesOf(c)
  {
  }

  lemma LowerIs(c: Clause)
    ensures forall k :: 1 <= k < |c| ==> c[k].variable in Lower(c)
    ensures forall v :: v in Lower(c) ==> exists k :: 1 <= k < |c| && c[k].variable == v
  {
  }

  lemma FirstNotMarked(ca: Clauses, t: Trail, c: Clause, s: set<nat>, i: nat)
    requires IsFirstUIP(ca, t, c, i) && s == Front(ca, t, c, i + 1) - {t.lits[i].variable}
    ensures t.lits[i].variable !in s
  {
  }

  lemma LearntShortened(t: Trail, c: Clause, first: Clause, out: Clause, learnt: Clause, ccminMode: int)
    requires forall l :: l in first <==> l in c && Level(t, l.variable) > 0
    requires (forall l :: l in out ==> l in first) && multiset(learnt) == multiset(out)
    requires forall l :: l in first && Undroppable(t, l, ccminMode) ==> l in out
    ensures LearntFrom(t, c, learnt, ccminMode)
  {
    forall l ensures l in learnt <==> l in out {
      assert l in learnt <==> l in multiset(learnt);
      assert l in out <==> l in multiset(out);
    }
  }

  /** Reading at `i` and writing at `j` of the same list. */
  function Kept(out: Clause, i: nat, j: nat): Clause
    requires j <= i <= |out|
  {
    out[..j] + out[i..]
  }

  lemma KeptAt(out: Clause, i: nat, j: nat)
    requires j <= i < |out|
    ensures j < |Kept(out, i, j)| && Kept(out, i, j)[j] == out[i]
    ensures Kept(out[j := out[i]], i + 1, j + 1) == Kept(out, i, j)
    ensures Kept(out, i + 1, j) == Kept(out, i, j)[..j] + Kept(out, i, j)[j + 1..]
  {
    assert out[j := out[i]][..j + 1] + out[j := out[i]][i + 1..] == out[..j] + out[i..];
  }

  lemma KeptAll(out: Clause, i: nat)
    requires i <= |out|
    ensures Kept(out, i, i) == out
    ensures forall j :: 0 <= j <= |out| ==> Kept(out, |out|, j) == out[..j]
  {
    forall j | 0 <= j <= |out| ensures Kept(out, |out|, j) == out[..j] {
      assert out[|out|..] == [];
    }
  }

  lemma LearntAt(t: Trail, c: Clause, j: nat)
    requires Learnt(t, c) && 1 <= j < |c|
    ensures IsFalse(t, c[j]) && c[j].variable in t.assigns && 0 < Level(t, c[j].variable) < |t.lim|
  {
  }

  lemma ShrinkingLearnt(ca: Clauses, t: Trail, s: set<nat>, c: Clause)
    requires Shrinking(ca, t, s, c)
    ensures Learnt(t, c) && c != [] && Supported(ca, t, s, Lower(c)) && Cuts(ca, t, s + {c[0].variable})
  {
  }

  lemma MarkedIn(before: set<nat>, list: seq<Literal>, s: set<nat>, more: seq<Literal>)
    requires Marked(before, list, s, more) && before <= VariablesOf(list)
    ensures s <= VariablesOf(more)
  {
    forall v | v in s ensures v in VariablesOf(more) {
      if v in before {
        var k :| 0 <= k < |list| && list[k].variable == v;
        assert more[..|list|][k] == more[k];
      } else {
        assert v in VariablesOf(more[|list|..]);
        var k :| 0 <= k < |more[|list|..]| && more[|list|..][k].variable == v;
        assert more[|list| + k].variable == v;
      }
    }
  }

  /** No literal after the first is above level `level`. */
  ghost predicate Capped(t: Trail, c: Clause, level: nat, n: nat) {
    forall k :: 1 <= k < n && k < |c| ==> Level(t, c[k].variable) <= level
  }

  lemma AssertingUnit(t: Trail, c: Clause)
    requires Learnt(t, c) && |c| == 1 && t.lim != []
    ensures Asserting(t, c, 0)
  {
  }

  lemma AssertingSwapped(ca: Clauses, t: Trail, c: Clause, i: nat)
    requires Learnt(t, c) && Implied(ca, t, c) && 1 <= i < |c| && Capped(t, c, Level(t, c[i].variable), |c|)
    ensures var d := c[i := c[1]][1 := c[i]];
            Asserting(t, d, Level(t, c[i].variable)) && Implied(ca, t, d) && multiset(d) == multiset(c)
  {
    LearntSwapped(ca, t, c, i);
    var d, level := c[i := c[1]][1 := c[i]], Level(t, c[i].variable);
    forall k | 1 <= k < |d| ensures Level(t, d[k].variable) <= level {
      var x := if k == i then 1 else if k == 1 then i else k;
      assert d[k] == c[x];
    }
  }

  /** An implied clause that is false at level 0 leaves no model. */
  lemma Contradiction(ca: Clauses, t: Trail, cr: nat)
    requires Ok(t) && t.lim == [] && cr in ca && forall l :: l in ca[cr] ==> IsFalse(t, l)
    ensures forall m: Model :: !Fits(m, ca, t)
  {
    hide Ok;
    ConflictCuts(ca, t, cr);
    forall l | l in ca[cr] ensures Level(t, l.variable) == 0 {
      FalseLevel(t, l);
    }
    assert High(t, ca[cr], 0, |ca[cr]|) == {};
  }
}
