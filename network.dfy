/** The constraint network the solver works on: variables (ids 0 .. size-1,
    enumerated in id order), each with a domain and an optional assignment,
    and all-different constraints given as lists of variable ids. Only the
    operations the solver calls are modelled. */
module ConstraintNetworks {
  import opened Domains

  datatype Option<T> = None | Some(value: T)

  /** The state of one Variable: its Domain and its committed value, if any. */
  datatype VarState = VarState(domain: seq<int>, value: Option<int>)

  /** Variables `v` and `w` occur together in some constraint. */
  predicate Shares(cs: seq<seq<nat>>, v: nat, w: nat) {
    exists k :: 0 <= k < |cs| && v in cs[k] && w in cs[k]
  }

  /** The neighbours of `v` among the ids from..n-1, in ascending id order. */
  function NeighborsFrom(cs: seq<seq<nat>>, n: nat, v: nat, from: nat): (r: seq<nat>)
    ensures forall w :: w in r <==> from <= w < n && w != v && Shares(cs, v, w)
    ensures forall i, j :: 0 <= i < j < |r| ==> r[i] < r[j]
    ensures forall i :: 0 <= i < |r| ==> from <= r[i]
    decreases n - from
  {
    if from >= n then []
    else if from != v && Shares(cs, v, from) then [from] + NeighborsFrom(cs, n, v, from + 1)
    else NeighborsFrom(cs, n, v, from + 1)
  }

  /** ConstraintNetwork::getNeighborsOfVariable: every other variable that
      shares a constraint with `v`, each once. */
  function Neighbors(cs: seq<seq<nat>>, n: nat, v: nat): (r: seq<nat>) {
    NeighborsFrom(cs, n, v, 0)
  }

  /** ConstraintNetwork::getConstraintsContainingVariable(v).size(): the
      number of constraints `v` belongs to. */
  function Degree(cs: seq<seq<nat>>, v: nat): (r: nat) {
    if cs == [] then 0 else (if v in cs[0] then 1 else 0) + Degree(cs[1..], v)
  }

  /** How many of the variables `ws` still have `x` in their domain. */
  function CountHolding(vars: seq<VarState>, ws: seq<nat>, x: int): (r: nat) {
    if ws == [] then 0
    else (if ws[0] < |vars| && x in vars[ws[0]].domain then 1 else 0) + CountHolding(vars, ws[1..], x)
  }

  /** The sum of all domain sizes: the measure propagation shrinks. */
  function TotalSize(vars: seq<VarState>): (r: nat) {
    if vars == [] then 0 else |vars[0].domain| + TotalSize(vars[1..])
  }

  /** Replacing one variable's state changes the total by the difference in its domain size. */
  lemma {:induction false} TotalSizeUpdate(vars: seq<VarState>, i: nat, st: VarState)
    requires i < |vars|
    ensures TotalSize(vars[i := st]) == TotalSize(vars) - |vars[i].domain| + |st.domain|
  {
    if i > 0 {
      TotalSizeUpdate(vars[1..], i - 1, st);
      assert vars[i := st][1..] == vars[1..][i - 1 := st];
    } else {
      assert vars[i := st][1..] == vars[1..];
    }
  }

  /** The number of variables without an assignment: the recursion measure of the search. */
  function Unassigned(vars: seq<VarState>): (r: nat) {
    if vars == [] then 0 else (if vars[0].value.None? then 1 else 0) + Unassigned(vars[1..])
  }

  /** If no assignment is lost and `v` gains one, fewer variables are unassigned. */
  lemma {:induction false} UnassignedDecreases(a: seq<VarState>, b: seq<VarState>, v: nat)
    requires |a| == |b| && v < |a|
    requires forall i :: 0 <= i < |a| && a[i].value.Some? ==> b[i].value.Some?
    requires a[v].value.None? && b[v].value.Some?
    ensures Unassigned(b) < Unassigned(a)
  {
    if v == 0 {
      UnassignedMonotone(a[1..], b[1..]);
    } else {
      UnassignedDecreases(a[1..], b[1..], v - 1);
    }
  }

  /** If no assignment is lost, the number of unassigned variables does not grow. */
  lemma {:induction false} UnassignedMonotone(a: seq<VarState>, b: seq<VarState>)
    requires |a| == |b|
    requires forall i :: 0 <= i < |a| && a[i].value.Some? ==> b[i].value.Some?
    ensures Unassigned(b) <= Unassigned(a)
  {
    if a != [] {
      UnassignedMonotone(a[1..], b[1..]);
    }
  }

  predicate AllAssigned(vars: seq<VarState>) {
    forall i :: 0 <= i < |vars| ==> vars[i].value.Some?
  }

  predicate NoEmptyDomain(vars: seq<VarState>) {
    forall i :: 0 <= i < |vars| ==> vars[i].domain != []
  }

  /** Constraint::isConsistent: no two distinct assigned members hold the same value. */
  predicate Consistent(vars: seq<VarState>, c: seq<nat>) {
    forall i, j ::
      (0 <= i < |c| && 0 <= j < |c| && c[i] < |vars| && c[j] < |vars| && c[i] != c[j] &&
       vars[c[i]].value.Some? && vars[c[j]].value.Some?) ==> vars[c[i]].value != vars[c[j]].value
  }

  predicate AllConsistent(vars: seq<VarState>, cs: seq<seq<nat>>) {
    forall k :: 0 <= k < |cs| ==> Consistent(vars, cs[k])
  }

  /** `b` solves the network `a` leaves open: every variable is assigned a
      value from its domain in `a`, the assignments of `a` are kept, and
      every constraint holds. */
  ghost predicate Completes(cs: seq<seq<nat>>, a: seq<VarState>, b: seq<VarState>) {
    && |b| == |a|
    && AllConsistent(b, cs)
    && forall i :: 0 <= i < |a| ==>
         b[i].value.Some? && b[i].value.value in a[i].domain && (a[i].value.Some? ==> b[i].value == a[i].value)
  }

  /** A network with a solution has consistent assignments. */
  lemma CompletionConsistent(cs: seq<seq<nat>>, a: seq<VarState>, b: seq<VarState>)
    requires Completes(cs, a, b)
    ensures AllConsistent(a, cs)
  {
    forall k | 0 <= k < |cs| ensures Consistent(a, cs[k]) {
      assert Consistent(b, cs[k]);
    }
  }

  /** A solution gives `v` one of the values of its domain, wherever that
      value is listed in `values`. */
  lemma CompletionListed(cs: seq<seq<nat>>, a: seq<VarState>, v: nat, values: seq<int>)
    requires v < |a| && multiset(values) == multiset(a[v].domain)
    ensures forall b: seq<VarState> :: Completes(cs, a, b) ==>
      exists j :: 0 <= j < |values| && b[v].value == Some(values[j])
  {
    forall b: seq<VarState> | Completes(cs, a, b)
      ensures exists j :: 0 <= j < |values| && b[v].value == Some(values[j])
    {
      assert b[v].value.value in multiset(values);
      var j :| 0 <= j < |values| && values[j] == b[v].value.value;
    }
  }

  /** Assigning a variable the value a solution gives it keeps that solution. */
  lemma CompletionAssign(cs: seq<seq<nat>>, a: seq<VarState>, b: seq<VarState>, v: nat)
    requires Completes(cs, a, b) && v < |a|
    ensures Completes(cs, a[v := VarState([b[v].value.value], b[v].value)], b)
  {
  }

  /** `v`, if assigned, has had its value removed from every neighbour's domain. */
  ghost predicate Settled(cs: seq<seq<nat>>, vars: seq<VarState>, v: nat) {
    v < |vars| &&
    (vars[v].value.Some? ==>
      forall w :: 0 <= w < |vars| && w != v && Shares(cs, v, w) ==> vars[v].value.value !in vars[w].domain)
  }

  /** Every member of every constraint listed in `ks` is settled. */
  ghost predicate FrontierSettled(cs: seq<seq<nat>>, vars: seq<VarState>, ks: seq<nat>) {
    forall i, j :: 0 <= i < |ks| && ks[i] < |cs| && 0 <= j < |cs[ks[i]]| ==> Settled(cs, vars, cs[ks[i]][j])
  }

  /** One variable's state only narrows: the domain loses values, an assignment
      is never taken back, and a new assignment comes from the old domain and
      leaves at most that value in the domain. */
  ghost predicate Shrinks(p: VarState, q: VarState) {
    && (forall x :: x in q.domain ==> x in p.domain)
    && (p.value.Some? ==> q.value == p.value)
    && (p.value.None? && q.value.Some? ==> q.value.value in p.domain && forall y :: y in q.domain ==> y == q.value.value)
  }

  lemma ShrinksTransitive(p: VarState, q: VarState, r: VarState)
    requires Shrinks(p, q) && Shrinks(q, r)
    ensures Shrinks(p, r)
  {
    if p.value.None? && r.value.Some? {
      if q.value.Some? {
        assert r.value == q.value;
      } else {
        var x := r.value.value;
        assert x in q.domain;
        assert x in p.domain;
      }
    }
  }

  ghost predicate Narrows(a: seq<VarState>, b: seq<VarState>) {
    |a| == |b| && forall i :: 0 <= i < |a| ==> Shrinks(a[i], b[i])
  }

  ghost predicate SameValues(a: seq<VarState>, b: seq<VarState>) {
    |a| == |b| && forall i :: 0 <= i < |a| ==> b[i].value == a[i].value
  }

  /** Some neighbour of `i` is assigned `x`. */
  ghost predicate Held(cs: seq<seq<nat>>, vars: seq<VarState>, i: nat, x: int) {
    exists v :: 0 <= v < |vars| && v != i && Shares(cs, v, i) && vars[v].value == Some(x)
  }

  /** Every value that left a domain between `a` and `b` was taken by a
      neighbour's assignment, or the variable itself was assigned. */
  ghost predicate Justified(cs: seq<seq<nat>>, a: seq<VarState>, b: seq<VarState>) {
    forall i, x :: 0 <= i < |a| && i < |b| && x in a[i].domain && x !in b[i].domain ==>
      Held(cs, b, i, x) || (a[i].value.None? && b[i].value.Some?)
  }

  /** Narrowing composes: a run of narrowing steps narrows. */
  lemma NarrowsTransitive(a: seq<VarState>, b: seq<VarState>, c: seq<VarState>)
    requires Narrows(a, b) && Narrows(b, c)
    ensures Narrows(a, c)
  {
    forall i | 0 <= i < |a| ensures Shrinks(a[i], c[i]) {
      ShrinksTransitive(a[i], b[i], c[i]);
    }
  }

  /** Narrowing and justification compose across consecutive propagation steps. */
  lemma PropagationComposes(cs: seq<seq<nat>>, a: seq<VarState>, b: seq<VarState>, c: seq<VarState>)
    requires Narrows(a, b) && Narrows(b, c)
    requires Justified(cs, a, b) && Justified(cs, b, c)
    ensures Narrows(a, c) && Justified(cs, a, c)
  {
    forall i | 0 <= i < |a| ensures Shrinks(a[i], c[i]) {
      ShrinksTransitive(a[i], b[i], c[i]);
    }
    forall i, x | 0 <= i < |a| && x in a[i].domain && x !in c[i].domain
      ensures Held(cs, c, i, x) || (a[i].value.None? && c[i].value.Some?)
    {
      if x !in b[i].domain {
        if Held(cs, b, i, x) {
          var v :| 0 <= v < |b| && v != i && Shares(cs, v, i) && b[v].value == Some(x);
          assert Shrinks(b[v], c[v]);
        }
      } else {
        assert Shrinks(a[i], b[i]);
      }
    }
  }

  /** A settled variable stays settled while domains only shrink and its own value is kept. */
  lemma SettledStable(cs: seq<seq<nat>>, a: seq<VarState>, b: seq<VarState>, v: nat)
    requires Narrows(a, b) && Settled(cs, a, v) && b[v].value == a[v].value
    ensures Settled(cs, b, v)
  {
    if b[v].value.Some? {
      forall w | 0 <= w < |b| && w != v && Shares(cs, v, w) ensures b[v].value.value !in b[w].domain {
        assert a[v].value.value !in a[w].domain;
        assert Shrinks(a[w], b[w]);
        assert forall x :: x in b[w].domain ==> x in a[w].domain;
      }
    }
  }

  /** Changing at most the value of `u` keeps every other settled variable settled. */
  lemma SettledSetKept(cs: seq<seq<nat>>, a: seq<VarState>, b: seq<VarState>, done: set<nat>, u: nat)
    requires Narrows(a, b)
    requires forall i :: 0 <= i < |a| && i != u ==> b[i].value == a[i].value
    requires forall d :: d in done ==> Settled(cs, a, d)
    ensures forall d :: d in done && d != u ==> Settled(cs, b, d)
  {
    forall d | d in done && d != u ensures Settled(cs, b, d) {
      SettledStable(cs, a, b, d);
    }
  }

  /** Every variable is settled. */
  ghost predicate AllSettled(cs: seq<seq<nat>>, vars: seq<VarState>) {
    forall d :: 0 <= d < |vars| ==> Settled(cs, vars, d)
  }

  /** Every assigned variable's domain is exactly its value (as assignValue
      leaves it). */
  predicate Pinned(vars: seq<VarState>) {
    forall i :: 0 <= i < |vars| && vars[i].value.Some? ==>
      vars[i].value.value in vars[i].domain && forall y :: y in vars[i].domain ==> y == vars[i].value.value
  }

  /** Narrowing keeps assigned domains pinned as long as no domain empties. */
  lemma PinnedKept(a: seq<VarState>, b: seq<VarState>)
    requires Narrows(a, b) && Pinned(a) && NoEmptyDomain(b)
    ensures Pinned(b)
  {
    forall i | 0 <= i < |b| && b[i].value.Some?
      ensures b[i].value.value in b[i].domain && forall y :: y in b[i].domain ==> y == b[i].value.value
    {
      assert Shrinks(a[i], b[i]);
      var y := b[i].domain[0];
      assert y in b[i].domain;
      if a[i].value.Some? {
        assert y in a[i].domain;
      }
      assert y == b[i].value.value;
    }
  }

  /** A propagation fixpoint is consistent: when every variable is settled
      and every assigned variable still has its own value in its domain, no
      constraint has two members assigned the same value. */
  lemma SettledConsistent(cs: seq<seq<nat>>, vars: seq<VarState>)
    requires forall v :: 0 <= v < |vars| ==> Settled(cs, vars, v)
    requires forall v :: 0 <= v < |vars| && vars[v].value.Some? ==> vars[v].value.value in vars[v].domain
    ensures AllConsistent(vars, cs)
  {
    forall k | 0 <= k < |cs| ensures Consistent(vars, cs[k]) {
      var c := cs[k];
      forall i, j | 0 <= i < |c| && 0 <= j < |c| && c[i] < |vars| && c[j] < |vars| && c[i] != c[j] &&
                    vars[c[i]].value.Some? && vars[c[j]].value.Some?
        ensures vars[c[i]].value != vars[c[j]].value
      {
        assert Shares(cs, c[i], c[j]) by {
          assert c[i] in cs[k] && c[j] in cs[k];
        }
        assert Settled(cs, vars, c[i]);
      }
    }
  }

  /** Pruning is sound: a value that left an unassigned variable's domain
      cannot be assigned there without breaking some constraint. */
  lemma PruningSound(cs: seq<seq<nat>>, a: seq<VarState>, b: seq<VarState>, i: nat, x: int)
    requires Justified(cs, a, b) && |a| == |b| && i < |a|
    requires x in a[i].domain && x !in b[i].domain && b[i].value.None?
    ensures !AllConsistent(b[i := VarState([x], Some(x))], cs)
  {
    var c := b[i := VarState([x], Some(x))];
    assert Held(cs, b, i, x);
    var v :| 0 <= v < |b| && v != i && Shares(cs, v, i) && b[v].value == Some(x);
    var k :| 0 <= k < |cs| && v in cs[k] && i in cs[k];
    var p :| 0 <= p < |cs[k]| && cs[k][p] == v;
    var q :| 0 <= q < |cs[k]| && cs[k][q] == i;
    assert c[v].value == Some(x) && c[i].value == Some(x);
    assert !Consistent(c, cs[k]);
  }

  /** Some member of constraint `c` is in `t`. */
  predicate Touches(c: seq<nat>, t: set<nat>) {
    exists j :: 0 <= j < |c| && c[j] in t
  }

  /** `t` together with every member of every constraint with a member in
      `t`: the variables a pass over the frontier taken from `t` visits. A set
      with `Around(cs, s) <= s` is closed under sharing a constraint. */
  ghost function Around(cs: seq<seq<nat>>, t: set<nat>): set<nat> {
    t + set k, j | 0 <= k < |cs| && 0 <= j < |cs[k]| && Touches(cs[k], t) :: cs[k][j]
  }

  /** The members of the constraints listed in `ks`. */
  ghost function Members(cs: seq<seq<nat>>, ks: seq<nat>): set<nat> {
    set i, j | 0 <= i < |ks| && ks[i] < |cs| && 0 <= j < |cs[ks[i]]| :: cs[ks[i]][j]
  }

  lemma AroundMonotone(cs: seq<seq<nat>>, t: set<nat>, u: set<nat>)
    requires t <= u
    ensures Around(cs, t) <= Around(cs, u)
  {
    forall x | x in Around(cs, t) && x !in t ensures x in Around(cs, u) {
      var k, j :| 0 <= k < |cs| && 0 <= j < |cs[k]| && Touches(cs[k], t) && cs[k][j] == x;
      var i :| 0 <= i < |cs[k]| && cs[k][i] in t;
      assert cs[k][i] in u;
    }
  }

  /** A neighbour of `v` is one step around `v`. */
  lemma NeighbourAround(cs: seq<seq<nat>>, v: nat, w: nat)
    requires Shares(cs, v, w)
    ensures w in Around(cs, {v})
  {
    var k :| 0 <= k < |cs| && v in cs[k] && w in cs[k];
    var i :| 0 <= i < |cs[k]| && cs[k][i] == v;
    var j :| 0 <= j < |cs[k]| && cs[k][j] == w;
    assert Touches(cs[k], {v});
  }

  /** The members of a frontier taken from `t` are one step around `t`. */
  lemma FrontierAround(cs: seq<seq<nat>>, ks: seq<nat>, t: set<nat>)
    requires forall k :: k in ks ==> 0 <= k < |cs| && Touches(cs[k], t)
    ensures Members(cs, ks) <= Around(cs, t)
  {
    forall x | x in Members(cs, ks) ensures x in Around(cs, t) {
      var i, j :| 0 <= i < |ks| && ks[i] < |cs| && 0 <= j < |cs[ks[i]]| && cs[ks[i]][j] == x;
      assert ks[i] in ks;
    }
  }

  /** Marks added one step after another stay around `u` when the step's
      own marks are around a part `w` of `u`. */
  lemma MarksAroundStep(cs: seq<seq<nat>>, t0: set<nat>, t1: set<nat>, t2: set<nat>, u: set<nat>, w: set<nat>)
    requires w <= u && t0 <= t1
    requires t1 - t0 <= Around(cs, u) && t2 - t1 <= Around(cs, w)
    ensures t2 - t0 <= Around(cs, u)
  {
    AroundMonotone(cs, w, u);
  }

  /** The variables listed in constraint `c`. */
  ghost function Elements(c: seq<nat>): set<nat> {
    set x | x in c
  }

  /** The members of one listed constraint are among the members of the list. */
  lemma MembersListed(cs: seq<seq<nat>>, ks: seq<nat>, i: nat)
    requires i < |ks| && ks[i] < |cs|
    ensures Elements(cs[ks[i]]) <= Members(cs, ks)
  {
    forall x | x in Elements(cs[ks[i]]) ensures x in Members(cs, ks) {
      var j :| 0 <= j < |cs[ks[i]]| && cs[ks[i]][j] == x;
    }
  }

  /** Every member of every constraint with a member in `t` is settled: the
      state a propagation pass leaves the frontier taken from `t` in. */
  ghost predicate MarkedSettled(cs: seq<seq<nat>>, vars: seq<VarState>, t: set<nat>) {
    forall k, j :: 0 <= k < |cs| && Touches(cs[k], t) && 0 <= j < |cs[k]| ==> Settled(cs, vars, cs[k][j])
  }

  /** A marked variable is settled once its frontier is: either it is in a
      constraint with a marked member, or it has no neighbours at all. */
  lemma MarkedSettledCovers(cs: seq<seq<nat>>, vars: seq<VarState>, t: set<nat>, v: nat)
    requires MarkedSettled(cs, vars, t) && v in t && v < |vars|
    ensures Settled(cs, vars, v)
  {
    if vars[v].value.Some? {
      forall w | 0 <= w < |vars| && w != v && Shares(cs, v, w)
        ensures vars[v].value.value !in vars[w].domain
      {
        var k :| 0 <= k < |cs| && v in cs[k] && w in cs[k];
        var j :| 0 <= j < |cs[k]| && cs[k][j] == v;
        assert Touches(cs[k], t);
        assert Settled(cs, vars, cs[k][j]);
      }
    }
  }

  /** Variable `w`'s state once the value `x` of `v` has left the domain of
      every neighbour of `v`: a neighbour loses `x`, any other variable keeps
      its state. */
  ghost function AfterElimination(cs: seq<seq<nat>>, a: seq<VarState>, v: nat, x: int, w: nat): VarState
    requires w < |a|
  {
    if w != v && Shares(cs, v, w) then VarState(Remove(a[w].domain, x), a[w].value) else a[w]
  }

  /** `a` with `x` removed from the domain of every variable listed in `seen`
      and nothing else changed: the elimination loop's progress. */
  ghost function RemovedFrom(a: seq<VarState>, seen: seq<nat>, x: int): seq<VarState> {
    seq(|a|, i requires 0 <= i < |a| => if i in seen then VarState(Remove(a[i].domain, x), a[i].value) else a[i])
  }

  /** Removing `x` from one more variable extends the progress; a variable
      listed twice loses nothing more, since a domain without `x` is kept. */
  lemma RemovedFromStep(a: seq<VarState>, seen: seq<nat>, x: int, w: nat)
    requires w < |a|
    ensures var b := RemovedFrom(a, seen, x);
            b[w := VarState(Remove(b[w].domain, x), b[w].value)] == RemovedFrom(a, seen + [w], x)
  {
    var b := RemovedFrom(a, seen, x);
    var c := RemovedFrom(a, seen + [w], x);
    forall i | 0 <= i < |a| ensures b[w := VarState(Remove(b[w].domain, x), b[w].value)][i] == c[i] {
      if i == w && w in seen {
        assert x !in b[w].domain;
      }
    }
  }

  /** The listed variables that held `x`: the ones removing `x` from the
      listed variables changes, and so marks. */
  ghost function PrunedFrom(a: seq<VarState>, seen: seq<nat>, x: int): set<nat>
    decreases |seen|
  {
    if seen == [] then {}
    else
      var w := seen[|seen| - 1];
      PrunedFrom(a, seen[..|seen| - 1], x) + (if w < |a| && x in a[w].domain then {w} else {})
  }

  lemma {:induction false} PrunedFromMember(a: seq<VarState>, seen: seq<nat>, x: int, w: nat)
    decreases |seen|
    ensures w in PrunedFrom(a, seen, x) <==> w in seen && w < |a| && x in a[w].domain
  {
    if seen != [] {
      var prefix := seen[..|seen| - 1];
      PrunedFromMember(a, prefix, x, w);
      assert seen == prefix + [seen[|seen| - 1]];
    }
  }

  /** Exactly the listed variables that held `x` differ after removing it from them. */
  lemma RemovedFromChanged(a: seq<VarState>, seen: seq<nat>, x: int)
    ensures Changed(a, RemovedFrom(a, seen, x)) == PrunedFrom(a, seen, x)
  {
    var b := RemovedFrom(a, seen, x);
    forall i | i in Changed(a, b) ensures i in PrunedFrom(a, seen, x) {
      assert b[i] != a[i];
      PrunedFromMember(a, seen, x, i);
    }
    forall i | i in PrunedFrom(a, seen, x) ensures i in Changed(a, b) {
      PrunedFromMember(a, seen, x, i);
      assert x !in b[i].domain;
    }
  }

  /** Checking one more listed variable marks it exactly when it still held `x`. */
  lemma PrunedFromStep(a: seq<VarState>, seen: seq<nat>, x: int, w: nat)
    requires w < |a|
    ensures PrunedFrom(a, seen + [w], x) ==
      PrunedFrom(a, seen, x) + (if x in RemovedFrom(a, seen, x)[w].domain then {w} else {})
  {
    assert (seen + [w])[..|seen|] == seen;
    if w in seen {
      PrunedFromMember(a, seen, x, w);
      assert x !in RemovedFrom(a, seen, x)[w].domain;
    }
  }

  /** Removing `v`'s value from every neighbour's domain narrows the network,
      keeps every value, is justified by `v`'s assignment and leaves `v` settled. */
  lemma EliminationSound(cs: seq<seq<nat>>, a: seq<VarState>, b: seq<VarState>, v: nat)
    requires v < |a| == |b| && a[v].value.Some?
    requires forall w :: 0 <= w < |b| ==> b[w] == AfterElimination(cs, a, v, a[v].value.value, w)
    ensures Narrows(a, b) && SameValues(a, b) && Justified(cs, a, b) && Settled(cs, b, v)
  {
    var x := a[v].value.value;
    assert b[v] == a[v];
    forall i | 0 <= i < |a| ensures Shrinks(a[i], b[i]) && b[i].value == a[i].value {
      assert b[i] == AfterElimination(cs, a, v, x, i);
    }
    forall i, y | 0 <= i < |a| && y in a[i].domain && y !in b[i].domain
      ensures Held(cs, b, i, y)
    {
      assert b[i] == AfterElimination(cs, a, v, x, i);
      assert i != v && Shares(cs, v, i) && y == x;
    }
    forall w | 0 <= w < |b| && w != v && Shares(cs, v, w) ensures x !in b[w].domain {
      assert b[w] == AfterElimination(cs, a, v, x, w);
    }
  }

  /** The variables whose state differs between `a` and `b`: the ones a
      propagation step had to mark modified. */
  ghost function Changed(a: seq<VarState>, b: seq<VarState>): set<nat> {
    set i: nat | i < |a| && i < |b| && a[i] != b[i]
  }

  lemma ChangedTransitive(a: seq<VarState>, b: seq<VarState>, c: seq<VarState>)
    requires |a| == |b| == |c|
    ensures Changed(a, c) <= Changed(a, b) + Changed(b, c)
  {
  }

  /** Every variable marked in `t` but not in `t0` was unassigned in `a` and
      is assigned in `b`: between the two states, only assignments were marked. */
  ghost predicate MarkedByAssignment(a: seq<VarState>, b: seq<VarState>, t0: set<nat>, t: set<nat>) {
    forall d :: d in t && d !in t0 ==> d < |a| && d < |b| && a[d].value.None? && b[d].value.Some?
  }

  /** Along narrowing steps, marks made only by assignments compose. */
  lemma MarkedByAssignmentTrans(a: seq<VarState>, b: seq<VarState>, c: seq<VarState>,
                                t0: set<nat>, t1: set<nat>, t2: set<nat>)
    requires Narrows(a, b) && Narrows(b, c) && t0 <= t1
    requires MarkedByAssignment(a, b, t0, t1) && MarkedByAssignment(b, c, t1, t2)
    ensures MarkedByAssignment(a, c, t0, t2)
  {
    forall d | d in t2 && d !in t0
      ensures d < |a| && d < |c| && a[d].value.None? && c[d].value.Some?
    {
      if d in t1 {
        assert Shrinks(b[d], c[d]);
      } else {
        assert Shrinks(a[d], b[d]);
      }
    }
  }

  /** The network: constraints fixed at construction, variable states and
      the set of variables touched since the frontier was last taken. */
  class ConstraintNetwork {
    const constraints: seq<seq<nat>>
    const size: nat
    var vars: seq<VarState>
    var touched: set<nat>

    ghost predicate Valid()
      reads this
    {
      |vars| == size &&
      forall k, j :: 0 <= k < |constraints| && 0 <= j < |constraints[k]| ==> constraints[k][j] < size
    }

    /** The network as the board conversion builds it; `marked` holds the
        variables whose modified flag that conversion leaves set. */
    constructor (cs: seq<seq<nat>>, init: seq<VarState>, marked: set<nat>)
      requires forall k, j :: 0 <= k < |cs| && 0 <= j < |cs[k]| ==> cs[k][j] < |init|
      ensures Valid()
      ensures constraints == cs && vars == init && size == |init| && touched == marked
    {
      constraints := cs;
      size := |init|;
      vars := init;
      touched := marked;
    }

    /** Variable::removeValueFromDomain, marking the variable as touched. */
    method RemoveValueFromDomain(id: nat, x: int)
      requires Valid() && id < size
      modifies this
      ensures Valid()
      ensures vars == old(vars)[id := VarState(Remove(old(vars)[id].domain, x), old(vars)[id].value)]
      ensures touched == old(touched) + {id}
    {
      vars := vars[id := VarState(Remove(vars[id].domain, x), vars[id].value)];
      touched := touched + {id};
    }

    /** Variable::assignValue: commits `x` and collapses the domain to it. */
    method AssignValue(id: nat, x: int)
      requires Valid() && id < size
      modifies this
      ensures Valid()
      ensures vars == old(vars)[id := VarState([x], Some(x))]
      ensures touched == old(touched) + {id}
    {
      vars := vars[id := VarState([x], Some(x))];
      touched := touched + {id};
    }

    /** Puts back a state recorded on the trail. */
    method Restore(id: nat, st: VarState)
      requires Valid() && id < size
      modifies this
      ensures Valid()
      ensures vars == old(vars)[id := st] && touched == old(touched)
    {
      vars := vars[id := st];
    }

    /** ConstraintNetwork::getModifiedConstraints: the indices, ascending, of
        the constraints with a member touched since the last call; the touched
        marks are cleared. */
    method GetModifiedConstraints() returns (ks: seq<nat>)
      requires Valid()
      modifies this
      ensures Valid() && vars == old(vars) && touched == {}
      ensures forall k :: k in ks <==> 0 <= k < |constraints| && Touches(constraints[k], old(touched))
      ensures forall i :: 0 <= i < |ks| ==> ks[i] < |constraints|
      ensures old(touched) == {} ==> ks == []
    {
      ks := [];
      var k := 0;
      while k < |constraints|
        invariant 0 <= k <= |constraints|
        invariant forall i :: 0 <= i < |ks| ==> ks[i] < k
        invariant forall m :: m in ks <==> 0 <= m < k && Touches(constraints[m], touched)
        invariant touched == {} ==> ks == []
      {
        if Touches(constraints[k], touched) {
          ks := ks + [k];
        }
        k := k + 1;
      }
      touched := {};
    }
  }
}
