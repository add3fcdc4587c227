/** Garbage collection of the clause memory. */
module GarbageCollection {
  // By copying, with forwarding references left behind.

  import opened Logic
  import opened Trails
  import opened Watching
  import opened Propagation

  /** A stored clause, or where it has gone: the forwarding reference overwrites the first literal. */
  datatype Cell = Live(lits: Clause, mark: nat, learnt: bool, activity: int) | Gone(relocation: nat)

  type Memory = map<nat, Cell>

  /** Only learnt clauses have an activity. */
  predicate AllLive(m: Memory) { forall cr :: cr in m ==> m[cr].Live? && (m[cr].learnt || m[cr].activity == 0) }

  predicate Forwarded(original: Memory, from: Memory, to: Memory, cr: nat)
    requires cr in original && cr in from
  {
    if from[cr].Live? then from[cr] == original[cr]
    else from[cr].relocation in to && to[from[cr].relocation] == original[cr]
  }

  /** Every cell is untouched or copied whole to a cell of its own, and nothing else is copied. */
  ghost predicate Copying(original: Memory, from: Memory, to: Memory) {
    AllLive(original) && from.Keys == original.Keys &&
    (forall cr {:trigger Forwarded(original, from, to, cr)} :: cr in original ==> Forwarded(original, from, to, cr)) &&
    (forall a, b :: a in from && b in from && from[a].Gone? && from[a] == from[b] ==> a == b) &&
    (forall r :: r in to ==> exists cr :: cr in from && from[cr] == Gone(r))
  }

  /** Forwarding references stay. */
  ghost predicate Kept(before: Memory, after: Memory) {
    forall cr :: cr in before && before[cr].Gone? ==> cr in after && after[cr] == before[cr]
  }

  /** What has gone in between was referred to. */
  ghost predicate OnlyGone(before: Memory, after: Memory, refs: set<nat>) {
    forall cr :: cr in after && after[cr].Gone? ==> (cr in before && before[cr].Gone?) || cr in refs
  }

  function WatcherRefs(ws: seq<Watcher>): set<nat> { set w | w in ws :: w.cref }

  function WatchRefs(watches: WatchLists): set<nat> { set p, w | p in watches && w in watches[p] :: w.cref }

  function ReasonRefs(t: Trail): set<nat> {
    set l | l in t.lits && ReasonOf(t, l.variable).Because? :: ReasonOf(t, l.variable).cref
  }

  lemma CopyingNext(original: Memory, from: Memory, to: Memory, cr: nat, r: nat)
    requires Copying(original, from, to) && cr in from && from[cr].Live? && r !in to
    ensures Copying(original, from[cr := Gone(r)], to[r := from[cr]])
    ensures from[cr].learnt || from[cr].activity == 0
  {
    assert Forwarded(original, from, to, cr);
    var f, g := from[cr := Gone(r)], to[r := from[cr]];
    forall x | x in original ensures Forwarded(original, f, g, x) {
      assert Forwarded(original, from, to, x);
    }
    forall a, b | a in f && b in f && f[a].Gone? && f[a] == f[b] ensures a == b {
      assert Forwarded(original, from, to, a) && Forwarded(original, from, to, b);
    }
    forall x | x in g ensures exists y :: y in f && f[y] == Gone(x) {
      if x == r {
        assert f[cr] == Gone(r);
      } else {
        var y :| y in from && from[y] == Gone(x);
        assert f[y] == Gone(x);
      }
    }
  }

  class Collector {
    var from: Memory
    var to: Memory

    constructor (memory: Memory)
      requires AllLive(memory)
      ensures Copying(memory, from, to) && from == memory && to == map[]
    {
      from, to := memory, map[];
      new;
      forall cr | cr in memory ensures Forwarded(memory, from, to, cr) {}
    }

    /** The new place of a clause; it is copied the first time it is met. */
    method Reloc(cr: nat, ghost original: Memory) returns (r: nat)
      requires Copying(original, from, to) && cr in from
      modifies this
      ensures Copying(original, from, to) && Kept(old(from), from) && cr in from && from[cr] == Gone(r)
      ensures OnlyGone(old(from), from, {cr})
    {
      hide Copying;
      if from[cr].Gone? {
        return from[cr].relocation;
      }
      var _ := FreshReference(to.Keys);
      r :| r !in to;
      CopyingNext(original, from, to, cr, r);
      var c := from[cr];
      to := to[r := Live(c.lits, 0, c.learnt, 0)];
      from := from[cr := Gone(r)];
      to := to[r := to[r].(mark := c.mark)];
      if to[r].learnt {
        to := to[r := to[r].(activity := c.activity)];
      }
      assert to == old(to)[r := c];
    }

    method RelocAll(list: seq<nat>, ghost original: Memory) returns (r: seq<nat>)
      requires Copying(original, from, to) && forall i :: 0 <= i < |list| ==> list[i] in from
      modifies this
      ensures Copying(original, from, to) && Kept(old(from), from)
      ensures |r| == |list| && forall i :: 0 <= i < |list| ==> list[i] in from && from[list[i]] == Gone(r[i])
      ensures OnlyGone(old(from), from, set cr | cr in list)
    {
      hide Copying;
      r := [];
      var i := 0;
      while i < |list|
        invariant i <= |list| && |r| == i && Copying(original, from, to) && Kept(old(from), from)
        invariant from.Keys == old(from.Keys) && OnlyGone(old(from), from, set cr | cr in list)
        invariant forall j :: 0 <= j < i ==> list[j] in from && from[list[j]] == Gone(r[j])
      {
        SameKeys(original, from, to);
        var x := Reloc(list[i], original);
        SameKeys(original, from, to);
        r := r + [x];
        i := i + 1;
      }
    }

    method RelocWatchers(ws: seq<Watcher>, ghost original: Memory) returns (r: seq<Watcher>)
      requires Copying(original, from, to) && forall i :: 0 <= i < |ws| ==> ws[i].cref in from
      modifies this
      ensures Copying(original, from, to) && Kept(old(from), from)
      ensures MovedTo(from, ws, r) && OnlyGone(old(from), from, WatcherRefs(ws))
    {
      hide Copying;
      r := [];
      var j := 0;
      while j < |ws|
        invariant j <= |ws| && |r| == j && Copying(original, from, to) && Kept(old(from), from)
        invariant from.Keys == old(from.Keys) && OnlyGone(old(from), from, WatcherRefs(ws))
        invariant MovedTo(from, ws[..j], r)
      {
        SameKeys(original, from, to);
        ghost var before := from;
        var x := Reloc(ws[j].cref, original);
        SameKeys(original, from, to);
        MovedKept(before, from, ws[..j], r);
        assert ws[..j + 1] == ws[..j] + [ws[j]];
        r := r + [Watcher(x, ws[j].blocker)];
        j := j + 1;
      }
      assert ws[..j] == ws;
    }

    /** All watcher lists, in any order. */
    method RelocWatches(watches: WatchLists, ghost original: Memory) returns (r: WatchLists)
      requires Copying(original, from, to)
      requires forall p, i :: p in watches && 0 <= i < |watches[p]| ==> watches[p][i].cref in from
      modifies this
      ensures Copying(original, from, to) && Kept(old(from), from)
      ensures r.Keys == watches.Keys && forall p :: p in watches ==> MovedTo(from, watches[p], r[p])
      ensures OnlyGone(old(from), from, WatchRefs(watches))
    {
      hide Copying, MovedTo;
      r := map[];
      var keys := watches.Keys;
      while keys != {}
        invariant keys <= watches.Keys && r.Keys == watches.Keys - keys
        invariant Copying(original, from, to) && Kept(old(from), from) && from.Keys == old(from.Keys)
        invariant OnlyGone(old(from), from, WatchRefs(watches))
        invariant forall p :: p in r ==> MovedTo(from, watches[p], r[p])
        decreases keys
      {
        var p :| p in keys;
        SameKeys(original, from, to);
        ghost var before := from;
        var ws := RelocWatchers(watches[p], original);
        SameKeys(original, from, to);
        forall q | q in r ensures MovedTo(from, watches[q], r[q]) {
          MovedKept(before, from, watches[q], r[q]);
        }
        r := r[p := ws];
        keys := keys - {p};
      }
    }

    /** Reasons of the assigned variables.  A reason whose clause is neither copied nor locked would be
        left alone; in a state where reasons force their first literals there is none. */
    method RelocReasons(t: Trail, ghost original: Memory) returns (vardata: map<nat, VarData>)
      requires Copying(original, from, to) && Ok(t) && Reasoned(LitsOf(original), t)
      modifies this
      ensures Copying(original, from, to) && Kept(old(from), from) && vardata.Keys == t.vardata.Keys
      ensures forall v :: v in vardata ==> vardata[v].level == t.vardata[v].level
      ensures OnlyGone(old(from), from, ReasonRefs(t))
      ensures forall i :: 0 <= i < |t.lits| ==> t.lits[i].variable in vardata && ReasonMoved(from, t, vardata, i)
    {
      hide Copying, Pos, Ok, Reasoned, Kept;
      vardata := t.vardata;
      KeptSelf(from);
      NothingMoved(from, t);
      var i := 0;
      while i < |t.lits|
        invariant i <= |t.lits| && Copying(original, from, to) && Kept(old(from), from)
        invariant vardata.Keys == t.vardata.Keys && forall v :: v in vardata ==> vardata[v].level == t.vardata[v].level
        invariant MovedUpTo(from, t, vardata, i) && OnlyGone(old(from), from, ReasonRefs(t))
      {
        ghost var before, sofar := from, vardata;
        var v := t.lits[i].variable;
        var r := vardata[v].reason;
        if r.Because? {
          ReasonCell(original, from, to, t, i);
          if from[r.cref].Gone? || Locked(t.assigns, vardata, r.cref, from[r.cref].lits) {
            assert t.lits[i] in t.lits && r.cref in ReasonRefs(t);
            var x := Reloc(r.cref, original);
            KeptTrans(old(from), before, from);
            vardata := vardata[v := VarData(Because(x), vardata[v].level)];
          }
        }
        ReasonsMoved(before, from, t, sofar, vardata, i);
        i := i + 1;
      }
    }
  }

  /** A clause whose first literal it forces right now. */
  predicate Locked(assigns: map<nat, bool>, vardata: map<nat, VarData>, cr: nat, c: Clause) {
    c != [] && c[0].variable in assigns && assigns[c[0].variable] == c[0].positive &&
    c[0].variable in vardata && vardata[c[0].variable].reason == Because(cr)
  }

  /** Locked clauses are exactly the reasons of what is assigned. */
  lemma LockedExactly(ca: Clauses, t: Trail, cr: nat)
    requires Ok(t) && Reasoned(ca, t) && cr in ca
    ensures Locked(t.assigns, t.vardata, cr, ca[cr]) <==>
            exists i :: 0 <= i < |t.lits| && ReasonOf(t, t.lits[i].variable) == Because(cr)
  {
    hide Pos;
    if Locked(t.assigns, t.vardata, cr, ca[cr]) {
      var i := Locate(t, ca[cr][0]);
      assert ReasonOf(t, t.lits[i].variable) == Because(cr);
    }
    if i :| 0 <= i < |t.lits| && ReasonOf(t, t.lits[i].variable) == Because(cr) {
      assert ReasonAt(ca, t, i);
      assert IsTrue(t, t.lits[i]);
    }
  }

  function LitsOf(m: Memory): Clauses { map cr | cr in m && m[cr].Live? :: m[cr].lits }

  /** The reason of the literal at position `i` now refers to the copy. */
  ghost predicate ReasonMoved(from: Memory, t: Trail, vardata: map<nat, VarData>, i: nat)
    requires i < |t.lits| && t.lits[i].variable in vardata
  {
    var was, now := ReasonOf(t, t.lits[i].variable), vardata[t.lits[i].variable].reason;
    match was
    case NoReason => now == NoReason
    case Because(cr) => cr in from && now.Because? && from[cr] == Gone(now.cref)
  }

  lemma ReasonCell(original: Memory, from: Memory, to: Memory, t: Trail, i: nat)
    requires Copying(original, from, to) && Ok(t) && Reasoned(LitsOf(original), t) && i < |t.lits|
    requires ReasonOf(t, t.lits[i].variable).Because?
    ensures var cr := ReasonOf(t, t.lits[i].variable).cref;
            cr in from && (from[cr].Live? ==>
              from[cr].lits != [] && from[cr].lits[0] == t.lits[i]) && IsTrue(t, t.lits[i])
  {
    hide Pos;
    var cr := ReasonOf(t, t.lits[i].variable).cref;
    assert ReasonAt(LitsOf(original), t, i);
    assert Forwarded(original, from, to, cr);
  }

  /** The reasons of the first `n` literals are moved, the others untouched. */
  ghost predicate MovedUpTo(from: Memory, t: Trail, vardata: map<nat, VarData>, n: nat) {
    (forall j {:trigger t.lits[j]} :: 0 <= j < |t.lits| ==> t.lits[j].variable in vardata) &&
    (forall j {:trigger t.lits[j]} :: 0 <= j < |t.lits| ==>
       if j < n then ReasonMoved(from, t, vardata, j)
       else t.lits[j].variable in t.vardata && vardata[t.lits[j].variable] == t.vardata[t.lits[j].variable])
  }

  lemma NothingMoved(from: Memory, t: Trail)
    requires Ok(t)
    ensures MovedUpTo(from, t, t.vardata, 0)
  {
  }

  lemma KeptSelf(m: Memory)
    ensures Kept(m, m)
  {
  }

  lemma KeptTrans(a: Memory, b: Memory, c: Memory)
    requires Kept(a, b) && Kept(b, c)
    ensures Kept(a, c)
  {
  }

  lemma ReasonsMoved(before: Memory, after: Memory, t: Trail, sofar: map<nat, VarData>, vardata: map<nat, VarData>,
                     i: nat)
    requires Ok(t) && i < |t.lits| && (before == after || Kept(before, after))
    requires MovedUpTo(before, t, sofar, i) && t.lits[i].variable in vardata
    requires sofar.Keys <= vardata.Keys && forall v :: v in sofar && v != t.lits[i].variable ==> vardata[v] == sofar[v]
    requires ReasonMoved(after, t, vardata, i)
    ensures MovedUpTo(after, t, vardata, i + 1)
  {
    hide Pos;
    forall j | 0 <= j < |t.lits| && j != i ensures t.lits[j].variable != t.lits[i].variable {
      PosAt(t.lits, i);
      PosAt(t.lits, j);
    }
    forall j | 0 <= j < |t.lits|
      ensures if j < i + 1 then ReasonMoved(after, t, vardata, j)
              else t.lits[j].variable in t.vardata && vardata[t.lits[j].variable] == t.vardata[t.lits[j].variable]
    {
      if j < i {
        assert ReasonMoved(before, t, sofar, j);
      }
    }
  }

  ghost predicate MovedTo(from: Memory, ws: seq<Watcher>, r: seq<Watcher>) {
    |r| == |ws| && forall i :: 0 <= i < |ws| ==>
      ws[i].cref in from && from[ws[i].cref] == Gone(r[i].cref) && r[i].blocker == ws[i].blocker
  }

  lemma MovedKept(before: Memory, after: Memory, ws: seq<Watcher>, r: seq<Watcher>)
    requires MovedTo(before, ws, r) && Kept(before, after)
    ensures MovedTo(after, ws, r)
  {
  }

  lemma SameKeys(original: Memory, from: Memory, to: Memory)
    requires Copying(original, from, to)
    ensures from.Keys == original.Keys
  {
  }

  function Forwarding(from: Memory): map<nat, nat> { map cr | cr in from && from[cr].Gone? :: from[cr].relocation }

  /** Old references go one to one to new ones, and what they refer to is the same, header included. */
  ghost predicate Isomorphic(original: Memory, to: Memory, phi: map<nat, nat>) {
    (forall cr :: cr in phi ==> cr in original && phi[cr] in to && to[phi[cr]] == original[cr]) &&
    (forall a, b :: a in phi && b in phi && phi[a] == phi[b] ==> a == b) &&
    (forall r :: r in to ==> exists cr :: cr in phi && phi[cr] == r)
  }

  lemma CopyIsIsomorphic(original: Memory, from: Memory, to: Memory)
    requires Copying(original, from, to)
    ensures Isomorphic(original, to, Forwarding(from)) && AllLive(to)
  {
    var phi := Forwarding(from);
    forall cr | cr in phi ensures cr in original && phi[cr] in to && to[phi[cr]] == original[cr] {
      assert Forwarded(original, from, to, cr);
    }
    forall r | r in to ensures (exists cr :: cr in phi && phi[cr] == r) && to[r].Live? &&
      (to[r].learnt || to[r].activity == 0) {
      var cr :| cr in from && from[cr] == Gone(r);
      assert Forwarded(original, from, to, cr);
      assert cr in phi && phi[cr] == r;
    }
  }

  ghost predicate ListMoved(phi: map<nat, nat>, list: seq<nat>, r: seq<nat>) {
    |r| == |list| && forall i :: 0 <= i < |list| ==> list[i] in phi && r[i] == phi[list[i]]
  }

  ghost predicate WatchersMoved(phi: map<nat, nat>, ws: WatchLists, vs: WatchLists) {
    forall p {:trigger ListOf(vs, p)} {:trigger ListOf(ws, p)} :: ListMovedTo(phi, ListOf(ws, p), ListOf(vs, p))
  }

  ghost predicate ListMovedTo(phi: map<nat, nat>, l: seq<Watcher>, m: seq<Watcher>) {
    |m| == |l| && forall i :: 0 <= i < |l| ==> l[i].cref in phi && m[i] == Watcher(phi[l[i].cref], l[i].blocker)
  }

  ghost predicate ReasonsFollow(phi: map<nat, nat>, t: Trail, u: Trail) {
    t.lits == u.lits && t.lim == u.lim && t.assigns == u.assigns && t.vardata.Keys == u.vardata.Keys &&
    (forall v :: v in t.vardata ==> t.vardata[v].level == u.vardata[v].level) &&
    (forall i {:trigger t.lits[i]} :: 0 <= i < |t.lits| ==>
       match ReasonOf(t, t.lits[i].variable)
       case NoReason => ReasonOf(u, t.lits[i].variable) == NoReason
       case Because(cr) => cr in phi && ReasonOf(u, t.lits[i].variable) == Because(phi[cr]))
  }

  /** The references into the clause memory. */
  function Referenced(watches: WatchLists, t: Trail, learnts: seq<nat>, clauses: seq<nat>): set<nat> {
    WatchRefs(watches) + ReasonRefs(t) + (set cr | cr in learnts) + (set cr | cr in clauses)
  }

  /** What is referred to is what is copied. */
  lemma CopiedAre(memory: Memory, from: Memory, watches: WatchLists, vs: WatchLists, t: Trail, u: Trail,
                  learnts: seq<nat>, learnts': seq<nat>, clauses: seq<nat>, clauses': seq<nat>)
    requires AllLive(memory) && OnlyGone(memory, from, Referenced(watches, t, learnts, clauses))
    requires WatchersMoved(Forwarding(from), watches, vs) && ReasonsFollow(Forwarding(from), t, u)
    requires ListMoved(Forwarding(from), learnts, learnts') && ListMoved(Forwarding(from), clauses, clauses')
    ensures Forwarding(from).Keys == Referenced(watches, t, learnts, clauses)
  {
    var phi := Forwarding(from);
    forall cr | cr in Referenced(watches, t, learnts, clauses) ensures cr in phi {
      if cr in WatchRefs(watches) {
        var p, w :| p in watches && w in watches[p] && w.cref == cr;
        var i :| 0 <= i < |watches[p]| && watches[p][i] == w;
        assert ListMovedTo(phi, ListOf(watches, p), ListOf(vs, p));
      } else if cr in ReasonRefs(t) {
        var l :| l in t.lits && ReasonOf(t, l.variable) == Because(cr);
        var i :| 0 <= i < |t.lits| && t.lits[i] == l;
      }
    }
  }

  /** Every reference moves along one isomorphism of the clause memory, and nothing but what is
      referred to is copied. */
  method GarbageCollect(memory: Memory, watches: WatchLists, t: Trail, learnts: seq<nat>, clauses: seq<nat>)
    returns (to: Memory, vs: WatchLists, u: Trail, learnts': seq<nat>, clauses': seq<nat>, ghost phi: map<nat, nat>)
    requires AllLive(memory) && Ok(t) && Reasoned(LitsOf(memory), t)
    requires forall p, i :: p in watches && 0 <= i < |watches[p]| ==> watches[p][i].cref in memory
    requires (forall i :: 0 <= i < |learnts| ==> learnts[i] in memory)
    requires (forall i :: 0 <= i < |clauses| ==> clauses[i] in memory)
    ensures AllLive(to) && Isomorphic(memory, to, phi) && WatchersMoved(phi, watches, vs) && ReasonsFollow(phi, t, u)
    ensures ListMoved(phi, learnts, learnts') && ListMoved(phi, clauses, clauses')
    ensures phi.Keys == Referenced(watches, t, learnts, clauses)
  {
    hide Copying, Ok, Reasoned, MovedTo, Isomorphic, MovedUpTo, Kept, LitsOf, AllLive;
    var c := new Collector(memory);
    SameKeys(memory, c.from, c.to);
    vs := c.RelocWatches(watches, memory);
    SameKeys(memory, c.from, c.to);
    ghost var from1 := c.from;
    var vardata := c.RelocReasons(t, memory);
    SameKeys(memory, c.from, c.to);
    ghost var from2 := c.from;
    learnts' := c.RelocAll(learnts, memory);
    SameKeys(memory, c.from, c.to);
    ghost var from3 := c.from;
    clauses' := c.RelocAll(clauses, memory);
    to := c.to;
    u := t.(vardata := vardata);
    phi := Forwarding(c.from);
    CopyIsIsomorphic(memory, c.from, c.to);
    KeptTrans(from2, from3, c.from);
    KeptTrans(from1, from2, c.from);
    ReasonsAre(from2, c.from, t, vardata);
    WatchersAre(from1, c.from, watches, vs);
    ListsAre(from3, c.from, learnts, learnts');
    KeptSelf(c.from);
    ListsAre(c.from, c.from, clauses, clauses');
    assert OnlyGone(memory, c.from, Referenced(watches, t, learnts, clauses));
    CopiedAre(memory, c.from, watches, vs, t, u, learnts, learnts', clauses, clauses');
  }

  lemma ReasonsAre(from: Memory, last: Memory, t: Trail, vardata: map<nat, VarData>)
    requires Ok(t) && Kept(from, last) && vardata.Keys == t.vardata.Keys
    requires forall v :: v in vardata ==> vardata[v].level == t.vardata[v].level
    requires forall i :: 0 <= i < |t.lits| ==> t.lits[i].variable in vardata && ReasonMoved(from, t, vardata, i)
    ensures ReasonsFollow(Forwarding(last), t, t.(vardata := vardata))
  {
    hide Ok;
    var phi := Forwarding(last);
    var u := t.(vardata := vardata);
    forall i | 0 <= i < |t.lits|
      ensures match ReasonOf(t, t.lits[i].variable)
              case NoReason => ReasonOf(u, t.lits[i].variable) == NoReason
              case Because(cr) => cr in phi && ReasonOf(u, t.lits[i].variable) == Because(phi[cr])
    {
      assert ReasonMoved(from, t, vardata, i);
    }
  }

  lemma WatchersAre(from: Memory, last: Memory, ws: WatchLists, vs: WatchLists)
    requires Kept(from, last) && vs.Keys == ws.Keys && forall p :: p in ws ==> MovedTo(from, ws[p], vs[p])
    ensures WatchersMoved(Forwarding(last), ws, vs)
  {
    forall p ensures ListMovedTo(Forwarding(last), ListOf(ws, p), ListOf(vs, p)) {
      if p in ws {
        assert MovedTo(from, ws[p], vs[p]);
      }
    }
  }

  lemma ListsAre(from: Memory, last: Memory, list: seq<nat>, r: seq<nat>)
    requires Kept(from, last) && |r| == |list|
    requires forall i :: 0 <= i < |list| ==> list[i] in from && from[list[i]] == Gone(r[i])
    ensures ListMoved(Forwarding(last), list, r)
  {
  }

  /** Everything propagation relies on survives the move: watcher lists, reasons and the two-watch invariant. */
  lemma CollectedSteady(memory: Memory, to: Memory, phi: map<nat, nat>, ws: WatchLists, vs: WatchLists, t: Trail,
                        u: Trail, q: nat)
    requires AllLive(memory) && AllLive(to) && Isomorphic(memory, to, phi) && WatchersMoved(phi, ws, vs)
    requires ReasonsFollow(phi, t, u)
    requires Steady(LitsOf(memory), ws, t, q)
    ensures Steady(LitsOf(to), vs, u, q)
    ensures forall cr :: cr in memory ==> cr in phi
  {
    CollectedOk(phi, t, u);
    CollectedReasoned(memory, to, phi, t, u);
    CollectedShaped(memory, to, phi, ws, vs);
    CollectedStable(memory, to, phi, ws, vs, t, u, q);
    hide Ok, Reasoned, Shaped, Pos;
    forall cr | cr in memory ensures cr in phi {
      EveryClauseMoved(memory, phi, ws, vs, cr);
    }
  }

  lemma EveryClauseMoved(memory: Memory, phi: map<nat, nat>, ws: WatchLists, vs: WatchLists, cr: nat)
    requires AllLive(memory) && WatchersMoved(phi, ws, vs) && Shaped(LitsOf(memory), ws) && cr in memory
    ensures cr in phi
  {
    var ca := LitsOf(memory);
    assert Proper(ca[cr]);
    var p := ca[cr][0];
    assert Watches(ca[cr], p);
    var list := ListOf(ws, p.Negated());
    assert Lists(list, cr);
    var i :| 0 <= i < |list| && list[i].cref == cr;
    assert ListMovedTo(phi, list, ListOf(vs, p.Negated()));
  }

  lemma CollectedOk(phi: map<nat, nat>, t: Trail, u: Trail)
    requires ReasonsFollow(phi, t, u) && Ok(t)
    ensures Ok(u)
  {
    hide Pos;
    assert forall v :: Level(u, v) == Level(t, v);
    assert Recorded(u) by {
      forall i | 0 <= i < |u.lits| ensures IsTrue(u, u.lits[i]) && u.lits[i].variable in u.vardata {
        assert IsTrue(t, t.lits[i]);
      }
    }
  }

  lemma CollectedReasoned(memory: Memory, to: Memory, phi: map<nat, nat>, t: Trail, u: Trail)
    requires AllLive(memory) && AllLive(to) && Isomorphic(memory, to, phi) && ReasonsFollow(phi, t, u)
    requires Reasoned(LitsOf(memory), t)
    ensures Reasoned(LitsOf(to), u)
  {
    hide Pos;
    forall i | 0 <= i < |u.lits| ensures ReasonAt(LitsOf(to), u, i) {
      assert ReasonAt(LitsOf(memory), t, i);
      var r := ReasonOf(t, t.lits[i].variable);
      if r.Because? {
        assert LitsOf(to)[phi[r.cref]] == LitsOf(memory)[r.cref];
        forall k | 1 <= k < |memory[r.cref].lits| ensures FalseBefore(u, memory[r.cref].lits[k], i) {
          assert FalseBefore(t, memory[r.cref].lits[k], i);
        }
      }
    }
  }

  lemma CollectedShaped(memory: Memory, to: Memory, phi: map<nat, nat>, ws: WatchLists, vs: WatchLists)
    requires AllLive(memory) && AllLive(to) && Isomorphic(memory, to, phi) && WatchersMoved(phi, ws, vs)
    requires Shaped(LitsOf(memory), ws)
    ensures Shaped(LitsOf(to), vs)
  {
    var ca, cb := LitsOf(memory), LitsOf(to);
    forall r | r in cb ensures Proper(cb[r]) {
      var cr :| cr in phi && phi[cr] == r;
      assert ca[cr] == cb[r];
    }
    hide Proper;
    forall p ensures Entries(cb, p, ListOf(vs, p)) && Once(ListOf(vs, p)) {
      assert ListMovedTo(phi, ListOf(ws, p), ListOf(vs, p));
      assert Entries(ca, p, ListOf(ws, p)) && Once(ListOf(ws, p));
      forall i | 0 <= i < |ListOf(vs, p)| ensures Entry(cb, p, ListOf(vs, p)[i]) {
        assert Entry(ca, p, ListOf(ws, p)[i]);
      }
    }
    forall r, p | r in cb && Watches(cb[r], p) ensures Lists(ListOf(vs, p.Negated()), r) {
      var cr :| cr in phi && phi[cr] == r;
      assert ca[cr] == cb[r] && Watches(ca[cr], p);
      var list := ListOf(ws, p.Negated());
      assert Lists(list, cr);
      var i :| 0 <= i < |list| && list[i].cref == cr;
      assert ListMovedTo(phi, list, ListOf(vs, p.Negated()));
      assert ListOf(vs, p.Negated())[i].cref == r;
    }
  }

  lemma CollectedStable(memory: Memory, to: Memory, phi: map<nat, nat>, ws: WatchLists, vs: WatchLists, t: Trail,
                        u: Trail, q: nat)
    requires AllLive(memory) && AllLive(to) && Isomorphic(memory, to, phi) && WatchersMoved(phi, ws, vs)
    requires ReasonsFollow(phi, t, u)
    requires Shaped(LitsOf(memory), ws) && Shaped(LitsOf(to), vs) && Stable(LitsOf(memory), ws, t, q)
    ensures Stable(LitsOf(to), vs, u, q)
  {
    hide Pos, Shaped;
    var ca, cb := LitsOf(memory), LitsOf(to);
    forall l, i | 0 <= i < |ListOf(vs, l)| && Propagated(u, l, q) ensures Settles(cb, vs, u, l, i) {
      assert ListMovedTo(phi, ListOf(ws, l), ListOf(vs, l));
      assert Settles(ca, ws, t, l, i);
      EntryAt(ca, ws, l, i);
      EntryAt(cb, vs, l, i);
      assert cb[ListOf(vs, l)[i].cref] == ca[ListOf(ws, l)[i].cref];
    }
  }
}
