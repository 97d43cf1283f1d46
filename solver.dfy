/** BTSolver: backtracking search over the constraint network with
    pluggable consistency checks, variable selectors and value orderings. */
module Search {
  import opened Domains
  import opened ConstraintNetworks
  import opened Trails

  /** The consistency-check strategy, fixed at construction. */
  datatype ConsistencyCheck = AssignmentsOnly | ForwardCheckingCC | NorvigCheckCC | TournCC

  /** The checks that prune neighbour domains after an assignment. */
  predicate PropagatingCheck(c: ConsistencyCheck) {
    c == ForwardCheckingCC || c == NorvigCheckCC
  }

  /** The variable-selection strategy, fixed at construction. */
  datatype VariableSelector = FirstUnassigned | MinimumRemainingValue | MRVWithTieBreaker | TournVar

  /** The value-ordering strategy, fixed at construction. */
  datatype ValueSelector = InOrder | LeastConstrainingValue | TournVal

  /** `r` is the first variable, in enumeration order, without an assignment;
      None exactly when every variable is assigned. */
  predicate IsFirstUnassigned(vars: seq<VarState>, r: Option<nat>) {
    match r
    case None => AllAssigned(vars)
    case Some(i) => i < |vars| && vars[i].value.None? && forall j :: 0 <= j < i ==> vars[j].value.Some?
  }

  /** `r` is an unassigned variable whose domain is no larger than that of any
      unassigned variable, and the last such in enumeration order; None exactly
      when every variable is assigned. */
  predicate IsMRV(vars: seq<VarState>, r: Option<nat>) {
    match r
    case None => AllAssigned(vars)
    case Some(i) =>
      && i < |vars| && vars[i].value.None?
      && (forall j :: 0 <= j < |vars| && vars[j].value.None? ==> |vars[i].domain| <= |vars[j].domain|)
      && (forall j :: i < j < |vars| && vars[j].value.None? ==> |vars[i].domain| < |vars[j].domain|)
  }

  /** The MRV choice is determined: any two selectors meeting IsMRV pick the
      same variable. */
  lemma MRVUnique(vars: seq<VarState>, r1: Option<nat>, r2: Option<nat>)
    requires IsMRV(vars, r1) && IsMRV(vars, r2)
    ensures r1 == r2
  {
    if r1.Some? && r2.Some? {
      var i, j := r1.value, r2.value;
      assert |vars[i].domain| <= |vars[j].domain| && |vars[j].domain| <= |vars[i].domain|;
    }
  }

  /** Unassigned `i` comes no later than unassigned `j` in the degree
      tie-break order: smaller domain first, then more constraints, then
      enumeration order. */
  predicate DegreeOrder(cs: seq<seq<nat>>, vars: seq<VarState>, i: nat, j: nat)
    requires i < |vars| && j < |vars|
  {
    || |vars[i].domain| < |vars[j].domain|
    || (|vars[i].domain| == |vars[j].domain| && Degree(cs, j) < Degree(cs, i))
    || (|vars[i].domain| == |vars[j].domain| && Degree(cs, j) == Degree(cs, i) && i <= j)
  }

  /** `r` is the unassigned variable that comes first in DegreeOrder; None
      exactly when every variable is assigned. */
  predicate IsMRVDegree(cs: seq<seq<nat>>, vars: seq<VarState>, r: Option<nat>) {
    match r
    case None => AllAssigned(vars)
    case Some(i) =>
      && i < |vars| && vars[i].value.None?
      && forall j :: 0 <= j < |vars| && vars[j].value.None? ==> DegreeOrder(cs, vars, i, j)
  }

  /** The degree tie-break determines the variable, and it is a minimum
      remaining values choice. */
  lemma MRVDegreeUnique(cs: seq<seq<nat>>, vars: seq<VarState>, r1: Option<nat>, r2: Option<nat>)
    requires IsMRVDegree(cs, vars, r1) && IsMRVDegree(cs, vars, r2)
    ensures r1 == r2
    ensures r1.Some? ==> forall j :: 0 <= j < |vars| && vars[j].value.None? ==> |vars[r1.value].domain| <= |vars[j].domain|
  {
    if r1.Some? && r2.Some? {
      assert DegreeOrder(cs, vars, r1.value, r2.value) && DegreeOrder(cs, vars, r2.value, r1.value);
    }
  }

  /** As written, MRVwithTieBreaker ignores the degree: on two unassigned
      variables with equal domains, the first in two constraints and the
      second in one, it picks the second, which the degree rule would not. */
  lemma TieBreakerIgnoresDegree()
    ensures var cs: seq<seq<nat>> := [[0, 1], [0]];
            var vars := [VarState([1, 2], None), VarState([1, 2], None)];
            IsMRV(vars, Some(1)) && Degree(cs, 0) == 2 && Degree(cs, 1) == 1
            && !IsMRVDegree(cs, vars, Some(1)) && IsMRVDegree(cs, vars, Some(0))
  {
    var cs: seq<seq<nat>> := [[0, 1], [0]];
    var vars := [VarState([1, 2], None), VarState([1, 2], None)];
    assert cs[1..] == [[0]] && cs[1..][1..] == [];
    assert !DegreeOrder(cs, vars, 1, 0);
  }

  /** Along `r` the number of neighbours of `v` whose domain holds the value never decreases. */
  ghost predicate LeastConstrainingFirst(cs: seq<seq<nat>>, vars: seq<VarState>, v: nat, r: seq<int>) {
    forall i, j :: 0 <= i < j < |r| ==>
      CountHolding(vars, Neighbors(cs, |vars|, v), r[i]) <= CountHolding(vars, Neighbors(cs, |vars|, v), r[j])
  }

  /** Some neighbour of `v` still has `x` in its domain. */
  ghost predicate NeighbourAdmits(cs: seq<seq<nat>>, vars: seq<VarState>, v: nat, x: int) {
    exists w :: 0 <= w < |vars| && w != v && Shares(cs, v, w) && x in vars[w].domain
  }

  /** `x` is the first value, in the stored order of `v`'s domain, that no
      neighbour of `v` can still take. */
  ghost predicate FirstUnclaimed(cs: seq<seq<nat>>, vars: seq<VarState>, v: nat, x: int)
    requires v < |vars|
  {
    exists k :: 0 <= k < |vars[v].domain| && vars[v].domain[k] == x
      && !NeighbourAdmits(cs, vars, v, x)
      && forall j :: 0 <= j < k ==> NeighbourAdmits(cs, vars, v, vars[v].domain[j])
  }

  /** The elimination loop's progress from (`vars0`, `log0`, `t0`): the value
      `x` has left the domains of the neighbours in `seen` and nothing else,
      the trail can undo it, and the new marks are exactly the neighbours in
      `seen` that held `x`; `removed` reports a removal, which shrank the
      total domain size, and without one nothing has changed. */
  ghost predicate EliminationProgress(vars0: seq<VarState>, log0: seq<Entry>, t0: set<nat>,
                                      vars: seq<VarState>, log: seq<Entry>, t: set<nat>,
                                      seen: seq<nat>, x: int, removed: bool) {
    && Undoable(log0, log, vars0, vars) && vars == RemovedFrom(vars0, seen, x) && t == t0 + PrunedFrom(vars0, seen, x)
    && (removed ==> TotalSize(vars) < TotalSize(vars0))
    && (!removed ==> vars == vars0 && t == t0 && log == log0)
  }

  /** One more neighbour check, the `k`-th of `ns`, undoable and marked,
      extends the progress over the first `k` neighbours. */
  lemma EliminationProgressStep(vars0: seq<VarState>, log0: seq<Entry>, t0: set<nat>,
                                before: seq<VarState>, logBefore: seq<Entry>, tBefore: set<nat>,
                                after: seq<VarState>, logAfter: seq<Entry>, tAfter: set<nat>,
                                ns: seq<nat>, k: nat, x: int, removed: bool, pruned: bool)
    requires k < |ns| && EliminationProgress(vars0, log0, t0, before, logBefore, tBefore, ns[..k], x, removed)
    requires ns[k] < |before| && after == before[ns[k] := VarState(Remove(before[ns[k]].domain, x), before[ns[k]].value)]
    requires Undoable(logBefore, logAfter, before, after)
    requires pruned <==> x in before[ns[k]].domain
    requires tAfter == tBefore + (if pruned then {ns[k]} else {})
    requires pruned ==> TotalSize(after) < TotalSize(before)
    requires !pruned ==> logAfter == logBefore
    ensures EliminationProgress(vars0, log0, t0, after, logAfter, tAfter, ns[..k + 1], x, removed || pruned)
  {
    RemovedFromStep(vars0, ns[..k], x, ns[k]);
    PrunedFromStep(vars0, ns[..k], x, ns[k]);
    UndoableTrans(log0, logBefore, logAfter, vars0, before, after);
    assert ns[..k + 1] == ns[..k] + [ns[k]];
    if !pruned {
      assert after == before;
    }
  }

  /** Progress over every neighbour of `ns` is the elimination's outcome. */
  lemma EliminationProgressDone(vars0: seq<VarState>, log0: seq<Entry>, t0: set<nat>,
                                vars: seq<VarState>, log: seq<Entry>, t: set<nat>,
                                ns: seq<nat>, x: int, removed: bool)
    requires EliminationProgress(vars0, log0, t0, vars, log, t, ns[..|ns|], x, removed)
    ensures EliminationProgress(vars0, log0, t0, vars, log, t, ns, x, removed)
  {
    assert ns[..|ns|] == ns;
  }

  /** What forwardChecking's member and pass loops keep from (`vars0`,
      `log0`, `t0`): the domains only narrow, each removal held by a
      neighbour, no value changes, and the trail can undo it all; every
      changed variable is marked and every new mark lies around `u`; a
      reported change shrank the total domain size, and without one nothing
      has changed. */
  ghost predicate ForwardProgress(cs: seq<seq<nat>>, vars0: seq<VarState>, log0: seq<Entry>, t0: set<nat>,
                                  vars: seq<VarState>, log: seq<Entry>, t: set<nat>, u: set<nat>, changed: bool) {
    && Undoable(log0, log, vars0, vars)
    && Narrows(vars0, vars) && SameValues(vars0, vars) && Justified(cs, vars0, vars)
    && t0 <= t && Changed(vars0, vars) <= t && t - t0 <= Around(cs, u)
    && (changed ==> TotalSize(vars) < TotalSize(vars0))
    && (!changed ==> vars == vars0 && t == t0 && log == log0)
  }

  lemma ForwardProgressRefl(cs: seq<seq<nat>>, vars: seq<VarState>, log: seq<Entry>, t: set<nat>, u: set<nat>)
    ensures ForwardProgress(cs, vars, log, t, vars, log, t, u, false)
  {
    UndoableRefl(log, vars);
  }

  /** A step that progresses around a part `w` of `u` extends the progress
      around `u`; the change is reported when either part reported one. */
  lemma ForwardProgressStep(cs: seq<seq<nat>>, vars0: seq<VarState>, log0: seq<Entry>, t0: set<nat>,
                            before: seq<VarState>, logBefore: seq<Entry>, tBefore: set<nat>,
                            after: seq<VarState>, logAfter: seq<Entry>, tAfter: set<nat>,
                            u: set<nat>, w: set<nat>, changed: bool, step: bool)
    requires ForwardProgress(cs, vars0, log0, t0, before, logBefore, tBefore, u, changed)
    requires ForwardProgress(cs, before, logBefore, tBefore, after, logAfter, tAfter, w, step)
    requires w <= u
    ensures ForwardProgress(cs, vars0, log0, t0, after, logAfter, tAfter, u, changed || step)
  {
    UndoableTrans(log0, logBefore, logAfter, vars0, before, after);
    PropagationComposes(cs, vars0, before, after);
    ChangedTransitive(vars0, before, after);
    MarksAroundStep(cs, t0, tBefore, tAfter, u, w);
  }

  /** What norvigCheck's member and pass loops keep from (`vars0`, `log0`,
      `t0`): the domains only narrow, each removal held by a neighbour or an
      assignment, and the trail can undo them; every changed variable is
      marked and every new mark lies around `u`; a reported change shrank the
      total domain size, and without one every new mark is an assignment. */
  ghost predicate NorvigProgress(cs: seq<seq<nat>>, vars0: seq<VarState>, log0: seq<Entry>, t0: set<nat>,
                                 vars: seq<VarState>, log: seq<Entry>, t: set<nat>, u: set<nat>, changed: bool) {
    && Undoable(log0, log, vars0, vars)
    && Narrows(vars0, vars) && Justified(cs, vars0, vars)
    && t0 <= t && Changed(vars0, vars) <= t && t - t0 <= Around(cs, u)
    && TotalSize(vars) <= TotalSize(vars0)
    && (changed ==> TotalSize(vars) < TotalSize(vars0))
    && (!changed ==> MarkedByAssignment(vars0, vars, t0, t))
  }

  lemma NorvigProgressRefl(cs: seq<seq<nat>>, vars: seq<VarState>, log: seq<Entry>, t: set<nat>, u: set<nat>)
    ensures NorvigProgress(cs, vars, log, t, vars, log, t, u, false)
  {
    UndoableRefl(log, vars);
  }

  /** A step that progresses around a part `w` of `u` extends the progress
      around `u`; the change is reported when either part reported one. */
  lemma NorvigProgressStep(cs: seq<seq<nat>>, vars0: seq<VarState>, log0: seq<Entry>, t0: set<nat>,
                           before: seq<VarState>, logBefore: seq<Entry>, tBefore: set<nat>,
                           after: seq<VarState>, logAfter: seq<Entry>, tAfter: set<nat>,
                           u: set<nat>, w: set<nat>, changed: bool, step: bool)
    requires NorvigProgress(cs, vars0, log0, t0, before, logBefore, tBefore, u, changed)
    requires NorvigProgress(cs, before, logBefore, tBefore, after, logAfter, tAfter, w, step)
    requires w <= u
    ensures NorvigProgress(cs, vars0, log0, t0, after, logAfter, tAfter, u, changed || step)
  {
    UndoableTrans(log0, logBefore, logAfter, vars0, before, after);
    PropagationComposes(cs, vars0, before, after);
    ChangedTransitive(vars0, before, after);
    MarksAroundStep(cs, t0, tBefore, tAfter, u, w);
    if !changed && !step {
      MarkedByAssignmentTrans(vars0, before, after, t0, tBefore, tAfter);
    }
  }

  /** Every member of every constraint with a member in `t` is in `done`. */
  ghost predicate Covered(cs: seq<seq<nat>>, t: set<nat>, done: set<nat>) {
    forall k, j :: 0 <= k < |cs| && Touches(cs[k], t) && 0 <= j < |cs[k]| ==> cs[k][j] in done
  }

  /** A covered frontier whose visited members are all settled leaves every
      constraint touching a covered variable settled. */
  lemma CoveredSettled(cs: seq<seq<nat>>, vars: seq<VarState>, h: set<nat>, done: set<nat>, t: set<nat>)
    requires Covered(cs, h, done) && t <= h
    requires forall d :: d in done ==> Settled(cs, vars, d)
    ensures MarkedSettled(cs, vars, t)
  {
    forall k, j | 0 <= k < |cs| && Touches(cs[k], t) && 0 <= j < |cs[k]|
      ensures Settled(cs, vars, cs[k][j])
    {
      var m :| 0 <= m < |cs[k]| && cs[k][m] in t;
      assert cs[k][m] in h;
    }
  }

  lemma CoveredUnion(cs: seq<seq<nat>>, h: set<nat>, t: set<nat>, done: set<nat>)
    requires Covered(cs, h, done) && Covered(cs, t, done)
    ensures Covered(cs, h + t, done)
  {
    forall k, j | 0 <= k < |cs| && Touches(cs[k], h + t) && 0 <= j < |cs[k]|
      ensures cs[k][j] in done
    {
      var m :| 0 <= m < |cs[k]| && cs[k][m] in h + t;
      if cs[k][m] in h {
        assert Touches(cs[k], h);
      } else {
        assert Touches(cs[k], t);
      }
    }
  }

  /** After a pass has visited every member of the frontier taken from
      `marks`, the marked variables join the covered ones. */
  lemma PassCovers(cs: seq<seq<nat>>, ks: seq<nat>, marks: set<nat>, handled: set<nat>, done: set<nat>)
    requires forall k :: k in ks <==> 0 <= k < |cs| && Touches(cs[k], marks)
    requires forall i :: 0 <= i < |ks| ==> ks[i] < |cs|
    requires forall i, j :: 0 <= i < |ks| && 0 <= j < |cs[ks[i]]| ==> cs[ks[i]][j] in done
    requires Covered(cs, handled, done)
    ensures Covered(cs, handled + marks, done)
  {
    forall k, j | 0 <= k < |cs| && Touches(cs[k], marks) && 0 <= j < |cs[k]|
      ensures cs[k][j] in done
    {
      assert k in ks;
      var i :| 0 <= i < |ks| && ks[i] == k;
    }
    CoveredUnion(cs, handled, marks, done);
  }

  class BTSolver {
    const network: ConstraintNetwork
    const trail: Trail
    const cChecks: ConsistencyCheck
    const varHeuristics: VariableSelector
    const valHeuristics: ValueSelector
    var hasSolution: bool
    /** Set where solve prints "Error": no variable was selected while one is still unassigned. */
    var errorReported: bool

    ghost predicate Valid()
      reads network
    {
      network.Valid()
    }

    /** The configuration under which solve is a complete search: the
        assignments-only check prunes no solution, a real selector picks
        every unassigned variable, and a real ordering tries every value. */
    predicate Complete() {
      cChecks == AssignmentsOnly && varHeuristics != TournVar && valHeuristics != TournVal
    }

    constructor (net: ConstraintNetwork, tr: Trail, val: ValueSelector, vsel: VariableSelector, cc: ConsistencyCheck)
      ensures network == net && trail == tr
      ensures valHeuristics == val && varHeuristics == vsel && cChecks == cc
      ensures !hasSolution && !errorReported
    {
      network := net;
      trail := tr;
      valHeuristics := val;
      varHeuristics := vsel;
      cChecks := cc;
      hasSolution := false;
      errorReported := false;
    }

    // ---------------------------------------------------------------
    // Variable selectors
    // ---------------------------------------------------------------

    /** getfirstUnassignedVariable. */
    method GetFirstUnassignedVariable() returns (r: Option<nat>)
      requires Valid()
      ensures IsFirstUnassigned(network.vars, r)
    {
      var i := 0;
      while i < network.size
        invariant 0 <= i <= network.size
        invariant forall j :: 0 <= j < i ==> network.vars[j].value.Some?
      {
        if network.vars[i].value.None? {
          return Some(i);
        }
        i := i + 1;
      }
      return None;
    }

    /** getMRV: ties on domain size go to the later variable, because the
        incumbent is replaced on `==` as well as on `<`. */
    method GetMRV() returns (r: Option<nat>)
      requires Valid()
      ensures IsMRV(network.vars, r)
      ensures forall q :: IsMRV(network.vars, q) ==> q == r
    {
      var first := GetFirstUnassignedVariable();
      if first.None? {
        r := None;
      } else {
        var mrv := first.value;
        var minSize := |network.vars[mrv].domain|;
        var i := 0;
        while i < network.size
          invariant 0 <= i <= network.size
          invariant mrv < network.size && network.vars[mrv].value.None? && minSize == |network.vars[mrv].domain|
          invariant forall j :: 0 <= j < i && network.vars[j].value.None? ==> minSize <= |network.vars[j].domain|
          invariant i <= first.value ==> mrv == first.value
          invariant i > first.value ==> mrv < i
          invariant forall j :: mrv < j < i && network.vars[j].value.None? ==> minSize < |network.vars[j].domain|
        {
          if network.vars[i].value.None? {
            var size := |network.vars[i].domain|;
            if size == minSize || size < minSize {
              minSize := size;
              mrv := i;
            }
          }
          i := i + 1;
        }
        r := Some(mrv);
      }
      forall q | IsMRV(network.vars, q) ensures q == r {
        MRVUnique(network.vars, q, r);
      }
    }

    /** MRVwithTieBreaker as written: it recomputes the incumbent's degree on
        every replacement but never reads it, so the choice is exactly getMRV's. */
    method MRVWithTieBreakerAsWritten() returns (r: Option<nat>)
      requires Valid()
      ensures IsMRV(network.vars, r)
    {
      r := GetMRV();
    }

    /** MRVwithTieBreaker as its contract describes it: among the unassigned
        variables with the smallest domain, the one in the most constraints;
        remaining ties go to the first in enumeration order. */
    method MRVWithTieBreakerSelect() returns (r: Option<nat>)
      requires Valid()
      ensures IsMRVDegree(network.constraints, network.vars, r)
      ensures forall q :: IsMRVDegree(network.constraints, network.vars, q) ==> q == r
      ensures r.Some? ==> forall j :: 0 <= j < |network.vars| && network.vars[j].value.None? ==>
                                |network.vars[r.value].domain| <= |network.vars[j].domain|
    {
      var first := GetFirstUnassignedVariable();
      if first.None? {
        r := None;
      } else {
        var mrv := first.value;
        var minSize := |network.vars[mrv].domain|;
        var maxConstraints := Degree(network.constraints, mrv);
        var i := 0;
        while i < network.size
          invariant 0 <= i <= network.size
          invariant mrv < network.size && network.vars[mrv].value.None?
          invariant minSize == |network.vars[mrv].domain| && maxConstraints == Degree(network.constraints, mrv)
          invariant i <= first.value ==> mrv == first.value
          invariant i > first.value ==> mrv < i
          invariant forall j :: 0 <= j < i && network.vars[j].value.None? ==> DegreeOrder(network.constraints, network.vars, mrv, j)
        {
          if network.vars[i].value.None? {
            var size := |network.vars[i].domain|;
            var degree := Degree(network.constraints, i);
            if size < minSize || (size == minSize && degree > maxConstraints) {
              mrv, minSize, maxConstraints := i, size, degree;
            }
          }
          i := i + 1;
        }
        r := Some(mrv);
      }
      forall q | IsMRVDegree(network.constraints, network.vars, q) ensures q == r {
        MRVDegreeUnique(network.constraints, network.vars, q, r);
      }
      if r.Some? {
        MRVDegreeUnique(network.constraints, network.vars, r, r);
      }
    }

    /** selectNextVariable: dispatches on the configured selector; the
        tournament slot returns no variable. */
    method SelectNextVariable() returns (r: Option<nat>)
      requires Valid()
      ensures r.Some? ==> r.value < |network.vars| && network.vars[r.value].value.None?
      ensures varHeuristics == FirstUnassigned ==> IsFirstUnassigned(network.vars, r)
      ensures varHeuristics == MinimumRemainingValue || varHeuristics == MRVWithTieBreaker ==> IsMRV(network.vars, r)
      ensures varHeuristics == TournVar ==> r == None
      ensures varHeuristics != TournVar ==> (r.None? <==> AllAssigned(network.vars))
    {
      match varHeuristics
      case MinimumRemainingValue => r := GetMRV();
      case MRVWithTieBreaker => r := MRVWithTieBreakerAsWritten();
      case TournVar => r := None;
      case FirstUnassigned => r := GetFirstUnassignedVariable();
    }

    // ---------------------------------------------------------------
    // Consistency checks
    // ---------------------------------------------------------------

    /** assignmentsCheck: true exactly when every constraint is consistent. */
    method AssignmentsCheck() returns (ok: bool)
      requires Valid()
      ensures ok <==> AllConsistent(network.vars, network.constraints)
    {
      var k := 0;
      while k < |network.constraints|
        invariant 0 <= k <= |network.constraints|
        invariant forall m :: 0 <= m < k ==> Consistent(network.vars, network.constraints[m])
      {
        if !Consistent(network.vars, network.constraints[k]) {
          return false;
        }
        k := k + 1;
      }
      return true;
    }

    /** The closing loop of forwardChecking and norvigCheck: false as soon as
        some variable's domain is empty. */
    method AllDomainsNonEmpty() returns (ok: bool)
      requires Valid()
      ensures ok <==> NoEmptyDomain(network.vars)
    {
      var i := 0;
      while i < network.size
        invariant 0 <= i <= network.size
        invariant forall j :: 0 <= j < i ==> network.vars[j].domain != []
      {
        if network.vars[i].domain == [] {
          return false;
        }
        i := i + 1;
      }
      return true;
    }

    /** One neighbour of the elimination loop: when `w`'s domain holds the
        value assigned to `v`, `w` is pushed on the trail and then loses it. */
    method PruneNeighbour(v: nat, w: nat) returns (pruned: bool)
      requires Valid() && v < network.size && w < network.size && v != w
      requires Shares(network.constraints, v, w) && network.vars[v].value.Some?
      modifies network, trail
      ensures Valid()
      ensures pruned <==> old(network.vars)[v].value.value in old(network.vars)[w].domain
      ensures network.vars == old(network.vars)[w := VarState(Remove(old(network.vars)[w].domain, old(network.vars)[v].value.value), old(network.vars)[w].value)]
      ensures network.touched == old(network.touched) + (if pruned then {w} else {})
      ensures Undoable(old(trail.log), trail.log, old(network.vars), network.vars)
      ensures pruned ==> TotalSize(network.vars) < TotalSize(old(network.vars))
      ensures !pruned ==> network.vars == old(network.vars) && trail.log == old(trail.log)
    {
      ghost var vars0 := network.vars;
      ghost var log0 := trail.log;
      UndoableRefl(log0, vars0);
      var x := network.vars[v].value.value;
      pruned := false;
      if x in network.vars[w].domain {
        trail.Push(network, w);
        network.RemoveValueFromDomain(w, x);
        PushThenChange(log0, log0, vars0, vars0, w, network.vars[w]);
        TotalSizeUpdate(vars0, w, network.vars[w]);
        pruned := true;
      } else {
        assert vars0[w := VarState(Remove(vars0[w].domain, x), vars0[w].value)] == vars0;
      }
    }

    /** The elimination step shared by forwardChecking and norvigCheck for an
        assigned variable `v`: its value leaves the domain of every neighbour
        holding it, each neighbour pushed on the trail just before it changes. */
    method EliminateFromNeighbours(v: nat) returns (removed: bool)
      requires Valid() && v < network.size && network.vars[v].value.Some?
      modifies network, trail
      ensures Valid()
      ensures Undoable(old(trail.log), trail.log, old(network.vars), network.vars)
      ensures Narrows(old(network.vars), network.vars) && SameValues(old(network.vars), network.vars)
      ensures Justified(network.constraints, old(network.vars), network.vars)
      ensures Settled(network.constraints, network.vars, v)
      ensures forall w :: 0 <= w < |network.vars| ==>
        network.vars[w] == AfterElimination(network.constraints, old(network.vars), v, old(network.vars)[v].value.value, w)
      ensures old(network.touched) <= network.touched && Changed(old(network.vars), network.vars) <= network.touched
      ensures network.touched - old(network.touched) <= Around(network.constraints, {v})
      ensures ForwardProgress(network.constraints, old(network.vars), old(trail.log), old(network.touched),
                              network.vars, trail.log, network.touched, {v}, removed)
      ensures removed ==> TotalSize(network.vars) < TotalSize(old(network.vars))
      ensures !removed ==> network.vars == old(network.vars) && network.touched == old(network.touched) && trail.log == old(trail.log)
    {
      ghost var vars0 := network.vars;
      ghost var marks0 := network.touched;
      var x := network.vars[v].value.value;
      var ns := Neighbors(network.constraints, network.size, v);
      removed := PruneNeighbours(v, ns);
      RemovedFromChanged(vars0, ns, x);
      forall d | d in network.touched - marks0 ensures d in Around(network.constraints, {v}) {
        NeighbourAround(network.constraints, v, d);
      }
      forall w | 0 <= w < |network.vars|
        ensures network.vars[w] == AfterElimination(network.constraints, vars0, v, x, w)
      {
        assert network.vars[w] == (if w in ns then VarState(Remove(vars0[w].domain, x), vars0[w].value) else vars0[w]);
      }
      EliminationSound(network.constraints, vars0, network.vars, v);
    }

    /** The loop over getNeighborsOfVariable(v) in the elimination step: the
        assigned value leaves the domain of each listed neighbour in turn. */
    method PruneNeighbours(v: nat, ns: seq<nat>) returns (removed: bool)
      requires Valid() && v < network.size && network.vars[v].value.Some?
      requires forall w :: w in ns ==> w < network.size && w != v && Shares(network.constraints, v, w)
      modifies network, trail
      ensures Valid()
      ensures EliminationProgress(old(network.vars), old(trail.log), old(network.touched),
                                  network.vars, trail.log, network.touched, ns, old(network.vars)[v].value.value, removed)
    {
      ghost var vars0 := network.vars;
      ghost var log0 := trail.log;
      UndoableRefl(log0, vars0);
      var x := network.vars[v].value.value;
      removed := false;
      var k := 0;
      while k < |ns|
        invariant 0 <= k <= |ns|
        invariant network.Valid()
        invariant |network.vars| == |vars0| && network.vars[v] == vars0[v]
        invariant EliminationProgress(vars0, log0, old(network.touched), network.vars, trail.log, network.touched, ns[..k], x, removed)
      {
        var w := ns[k];
        assert w in ns;
        ghost var before := network.vars;
        ghost var logBefore := trail.log;
        ghost var marksBefore := network.touched;
        var pruned := PruneNeighbour(v, w);
        EliminationProgressStep(vars0, log0, old(network.touched), before, logBefore, marksBefore,
                                network.vars, trail.log, network.touched, ns, k, x, removed, pruned);
        removed := removed || pruned;
        k := k + 1;
      }
      EliminationProgressDone(vars0, log0, old(network.touched), network.vars, trail.log, network.touched, ns, x, removed);
    }

    /** The member loop of forwardChecking over one modified constraint `c`:
        each assigned member's value leaves its neighbours' domains; reports
        whether anything was removed. Visited variables join `done` and stay
        settled. */
    method ForwardMembers(c: seq<nat>, ghost done: set<nat>) returns (changed: bool, ghost done': set<nat>)
      requires Valid() && forall j :: 0 <= j < |c| ==> c[j] < network.size
      requires forall d :: d in done ==> Settled(network.constraints, network.vars, d)
      modifies network, trail
      ensures Valid()
      ensures ForwardProgress(network.constraints, old(network.vars), old(trail.log), old(network.touched),
                              network.vars, trail.log, network.touched, Elements(c), changed)
      ensures done <= done' && forall j :: 0 <= j < |c| ==> c[j] in done'
      ensures forall d :: d in done' ==> Settled(network.constraints, network.vars, d)
    {
      ghost var vars0 := network.vars;
      ghost var log0 := trail.log;
      ForwardProgressRefl(network.constraints, vars0, log0, network.touched, Elements(c));
      done' := done;
      changed := false;
      var j := 0;
      while j < |c|
        invariant 0 <= j <= |c|
        invariant network.Valid()
        invariant ForwardProgress(network.constraints, vars0, log0, old(network.touched),
                                  network.vars, trail.log, network.touched, Elements(c), changed)
        invariant done <= done' && forall j' :: 0 <= j' < j ==> c[j'] in done'
        invariant forall d :: d in done' ==> Settled(network.constraints, network.vars, d)
      {
        var v := c[j];
        if network.vars[v].value.Some? {
          ghost var before := network.vars;
          ghost var logBefore := trail.log;
          ghost var marksBefore := network.touched;
          var removed := EliminateFromNeighbours(v);
          assert {v} <= Elements(c);
          ForwardProgressStep(network.constraints, vars0, log0, old(network.touched), before, logBefore, marksBefore,
                              network.vars, trail.log, network.touched, Elements(c), {v}, changed, removed);
          SettledSetKept(network.constraints, before, network.vars, done', v);
          changed := changed || removed;
        }
        done' := done' + {v};
        j := j + 1;
      }
    }

    /** One pass of forwardChecking over the frontier `ks`: every member of
        every listed constraint is visited and joins `done`; reports whether
        anything was removed, and changes nothing when nothing was or when
        `ks` is empty. */
    method ForwardPass(ks: seq<nat>, ghost done: set<nat>) returns (changed: bool, ghost done': set<nat>)
      requires Valid() && forall i :: 0 <= i < |ks| ==> ks[i] < |network.constraints|
      requires forall d :: d in done ==> Settled(network.constraints, network.vars, d)
      modifies network, trail
      ensures Valid()
      ensures ForwardProgress(network.constraints, old(network.vars), old(trail.log), old(network.touched),
                              network.vars, trail.log, network.touched, Members(network.constraints, ks), changed)
      ensures done <= done'
      ensures forall i, j :: 0 <= i < |ks| && 0 <= j < |network.constraints[ks[i]]| ==> network.constraints[ks[i]][j] in done'
      ensures forall d :: d in done' ==> Settled(network.constraints, network.vars, d)
      ensures ks == [] ==> !changed
    {
      ghost var vars0 := network.vars;
      ghost var log0 := trail.log;
      ForwardProgressRefl(network.constraints, vars0, log0, network.touched, Members(network.constraints, ks));
      done' := done;
      changed := false;
      var i := 0;
      while i < |ks|
        invariant 0 <= i <= |ks|
        invariant network.Valid()
        invariant ForwardProgress(network.constraints, vars0, log0, old(network.touched),
                                  network.vars, trail.log, network.touched, Members(network.constraints, ks), changed)
        invariant done <= done'
        invariant forall i', j :: 0 <= i' < i && 0 <= j < |network.constraints[ks[i']]| ==> network.constraints[ks[i']][j] in done'
        invariant forall d :: d in done' ==> Settled(network.constraints, network.vars, d)
        invariant i == 0 ==> !changed
      {
        ghost var before := network.vars;
        ghost var marksBefore := network.touched;
        ghost var logBefore := trail.log;
        ghost var doneBefore := done';
        var c;
        c, done' := ForwardMembers(network.constraints[ks[i]], done');
        forall i', j | 0 <= i' <= i && 0 <= j < |network.constraints[ks[i']]|
          ensures network.constraints[ks[i']][j] in done'
        {
          if i' < i {
            assert network.constraints[ks[i']][j] in doneBefore;
          }
        }
        MembersListed(network.constraints, ks, i);
        ForwardProgressStep(network.constraints, vars0, log0, old(network.touched), before, logBefore, marksBefore,
                            network.vars, trail.log, network.touched, Members(network.constraints, ks),
                            Elements(network.constraints[ks[i]]), changed, c);
        changed := changed || c;
        i := i + 1;
      }
    }

    /** forwardChecking: repeats passes over the modified constraints,
        removing each assigned member's value from its neighbours, until a
        pass removes nothing; then reports whether every domain is non-empty.
        At the fixpoint every member of a constraint with a member modified on
        entry, or narrowed by the check, is settled. */
    method ForwardChecking() returns (ok: bool, ghost lastFrontier: seq<nat>)
      requires Valid()
      modifies network, trail
      ensures Valid()
      ensures Undoable(old(trail.log), trail.log, old(network.vars), network.vars)
      ensures Narrows(old(network.vars), network.vars) && SameValues(old(network.vars), network.vars)
      ensures Justified(network.constraints, old(network.vars), network.vars)
      ensures network.touched == {}
      ensures MarkedSettled(network.constraints, network.vars, old(network.touched))
      ensures MarkedSettled(network.constraints, network.vars, Changed(old(network.vars), network.vars))
      ensures FrontierSettled(network.constraints, network.vars, lastFrontier)
      ensures forall s :: Around(network.constraints, s) <= s && old(network.touched) <= s ==>
        Changed(old(network.vars), network.vars) <= s
      ensures old(network.touched) == {} ==> network.vars == old(network.vars) && trail.log == old(trail.log)
      ensures ok <==> NoEmptyDomain(network.vars)
    {
      ghost var vars0 := network.vars;
      ghost var log0 := trail.log;
      ghost var touched0 := network.touched;
      UndoableRefl(log0, vars0);
      lastFrontier := [];
      ghost var done: set<nat> := {};
      ghost var handled: set<nat> := {};
      ghost var passed := false;
      var numChanges := 0;
      while numChanges == 0
        invariant network.Valid()
        invariant Undoable(log0, trail.log, vars0, network.vars)
        invariant Narrows(vars0, network.vars) && SameValues(vars0, network.vars)
        invariant Justified(network.constraints, vars0, network.vars)
        invariant numChanges == 0 || numChanges == 1
        invariant numChanges == 1 ==> passed && network.touched == {} && FrontierSettled(network.constraints, network.vars, lastFrontier)
        invariant !passed ==> network.touched == touched0
        invariant forall d :: d in done ==> Settled(network.constraints, network.vars, d)
        invariant Covered(network.constraints, handled, done)
        invariant passed ==> touched0 <= handled
        invariant Changed(vars0, network.vars) <= handled + network.touched
        invariant forall s :: Around(network.constraints, s) <= s && touched0 <= s ==> handled <= s && network.touched <= s
        invariant touched0 == {} ==> network.vars == vars0 && trail.log == log0 && network.touched == {}
        decreases TotalSize(network.vars) + (if numChanges == 0 then 1 else 0)
      {
        numChanges := numChanges + 1;
        ghost var marks := network.touched;
        var modified := network.GetModifiedConstraints();
        lastFrontier := modified;
        ghost var before := network.vars;
        ghost var logBefore := trail.log;
        var changed;
        changed, done := ForwardPass(modified, done);
        if changed {
          numChanges := 0;
        }
        PropagationComposes(network.constraints, vars0, before, network.vars);
        UndoableTrans(log0, logBefore, trail.log, vars0, before, network.vars);
        ChangedTransitive(vars0, before, network.vars);
        PassCovers(network.constraints, modified, marks, handled, done);
        forall s | Around(network.constraints, s) <= s && touched0 <= s
          ensures handled + marks <= s && network.touched <= s
        {
          FrontierAround(network.constraints, modified, marks);
          AroundMonotone(network.constraints, marks, s);
          AroundMonotone(network.constraints, Members(network.constraints, modified), s);
        }
        handled := handled + marks;
        passed := true;
      }
      CoveredSettled(network.constraints, network.vars, handled, done, touched0);
      CoveredSettled(network.constraints, network.vars, handled, done, Changed(vars0, network.vars));
      ok := AllDomainsNonEmpty();
    }

    /** The inner neighbour loop of norvigCheck: `x` is assignable to `v`
        exactly when no neighbour's domain still contains it. */
    method IsAssignable(v: nat, x: int) returns (assignable: bool)
      requires Valid()
      ensures assignable <==> !NeighbourAdmits(network.constraints, network.vars, v, x)
    {
      assignable := true;
      var ns := Neighbors(network.constraints, network.size, v);
      var k := 0;
      while k < |ns|
        invariant 0 <= k <= |ns|
        invariant assignable
        invariant forall j :: 0 <= j < k ==> ns[j] < network.size && x !in network.vars[ns[j]].domain
      {
        assert ns[k] in ns;
        if x in network.vars[ns[k]].domain {
          assignable := false;
          break;
        }
        k := k + 1;
      }
      if assignable {
        forall w | 0 <= w < |network.vars| && w != v && Shares(network.constraints, v, w)
          ensures x !in network.vars[w].domain
        {
          assert w in ns;
          var j :| 0 <= j < |ns| && ns[j] == w;
        }
      }
    }

    /** The unassigned branch of norvigCheck for `v`: the first value of its
        domain that no neighbour can take is assigned to it, after a push. */
    method AssignIfUnique(v: nat) returns (placed: bool)
      requires Valid() && v < network.size && network.vars[v].value.None?
      modifies network, trail
      ensures Valid()
      ensures Undoable(old(trail.log), trail.log, old(network.vars), network.vars)
      ensures Narrows(old(network.vars), network.vars)
      ensures Justified(network.constraints, old(network.vars), network.vars)
      ensures Settled(network.constraints, network.vars, v)
      ensures TotalSize(network.vars) <= TotalSize(old(network.vars))
      ensures old(network.touched) <= network.touched && Changed(old(network.vars), network.vars) <= network.touched
      ensures !placed <==> forall x :: x in old(network.vars)[v].domain ==> NeighbourAdmits(network.constraints, old(network.vars), v, x)
      ensures placed ==> exists x :: FirstUnclaimed(network.constraints, old(network.vars), v, x)
                                       && network.vars == old(network.vars)[v := VarState([x], Some(x))]
      ensures placed ==> network.touched == old(network.touched) + {v}
      ensures !placed ==> network.vars == old(network.vars) && network.touched == old(network.touched) && trail.log == old(trail.log)
    {
      ghost var vars0 := network.vars;
      var dom := network.vars[v].domain;
      var k := 0;
      while k < |dom|
        invariant 0 <= k <= |dom|
        invariant network.vars == old(network.vars) && network.touched == old(network.touched) && trail.log == old(trail.log)
        invariant forall j :: 0 <= j < k ==> NeighbourAdmits(network.constraints, network.vars, v, dom[j])
      {
        var x := dom[k];
        var assignable := IsAssignable(v, x);
        if assignable {
          UndoableRefl(trail.log, vars0);
          trail.Push(network, v);
          network.AssignValue(v, x);
          PushThenChange(old(trail.log), old(trail.log), vars0, vars0, v, network.vars[v]);
          TotalSizeUpdate(vars0, v, network.vars[v]);
          assert FirstUnclaimed(network.constraints, vars0, v, x);
          return true;
        }
        k := k + 1;
      }
      forall x | x in dom
        ensures NeighbourAdmits(network.constraints, vars0, v, x)
      {
        var j :| 0 <= j < |dom| && dom[j] == x;
      }
      return false;
    }

    /** The body of norvigCheck's member loop for `v`: elimination when `v`
        is assigned, otherwise AssignIfUnique. Only the elimination counts
        as a change; the variables already visited this pass stay settled. */
    method NorvigVisit(v: nat, ghost done: set<nat>) returns (removed: bool)
      requires Valid() && v < network.size
      requires forall d :: d in done ==> Settled(network.constraints, network.vars, d)
      modifies network, trail
      ensures Valid()
      ensures Undoable(old(trail.log), trail.log, old(network.vars), network.vars)
      ensures Narrows(old(network.vars), network.vars)
      ensures Justified(network.constraints, old(network.vars), network.vars)
      ensures forall d :: d in done + {v} ==> Settled(network.constraints, network.vars, d)
      ensures forall i :: 0 <= i < |network.vars| && i != v ==> network.vars[i].value == old(network.vars)[i].value
      ensures old(network.touched) <= network.touched && Changed(old(network.vars), network.vars) <= network.touched
      ensures network.touched - old(network.touched) <= Around(network.constraints, {v})
      ensures NorvigProgress(network.constraints, old(network.vars), old(trail.log), old(network.touched),
                             network.vars, trail.log, network.touched, {v}, removed)
      ensures TotalSize(network.vars) <= TotalSize(old(network.vars))
      ensures removed <==> TotalSize(network.vars) < TotalSize(old(network.vars)) && old(network.vars)[v].value.Some?
      ensures !removed ==> MarkedByAssignment(old(network.vars), network.vars, old(network.touched), network.touched)
      ensures old(network.vars)[v].value.Some? ==> (forall w :: 0 <= w < |network.vars| ==>
        network.vars[w] == AfterElimination(network.constraints, old(network.vars), v, old(network.vars)[v].value.value, w))
      ensures (old(network.vars)[v].value.None? &&
               forall x :: x in old(network.vars)[v].domain ==> NeighbourAdmits(network.constraints, old(network.vars), v, x)) ==>
        network.vars == old(network.vars) && network.touched == old(network.touched)
      ensures (old(network.vars)[v].value.None? &&
               exists x :: x in old(network.vars)[v].domain && !NeighbourAdmits(network.constraints, old(network.vars), v, x)) ==>
        exists x :: FirstUnclaimed(network.constraints, old(network.vars), v, x)
                      && network.vars == old(network.vars)[v := VarState([x], Some(x))]
    {
      ghost var before := network.vars;
      if network.vars[v].value.Some? {
        removed := EliminateFromNeighbours(v);
      } else {
        var _ := AssignIfUnique(v);
        removed := false;
      }
      SettledSetKept(network.constraints, before, network.vars, done, v);
    }

    /** The member loop of norvigCheck over one modified constraint `c`:
        visits each member in order; reports whether any elimination shrank
        a domain. Visited variables join `done` and stay settled. */
    method NorvigMembers(c: seq<nat>, ghost done: set<nat>) returns (changed: bool, ghost done': set<nat>)
      requires Valid() && forall j :: 0 <= j < |c| ==> c[j] < network.size
      requires forall d :: d in done ==> Settled(network.constraints, network.vars, d)
      modifies network, trail
      ensures Valid()
      ensures NorvigProgress(network.constraints, old(network.vars), old(trail.log), old(network.touched),
                             network.vars, trail.log, network.touched, Elements(c), changed)
      ensures done <= done' && forall j :: 0 <= j < |c| ==> c[j] in done'
      ensures forall d :: d in done' ==> Settled(network.constraints, network.vars, d)
      ensures forall d :: 0 <= d < |network.vars| && network.vars[d].value != old(network.vars)[d].value ==> d in done'
    {
      ghost var vars0 := network.vars;
      ghost var log0 := trail.log;
      NorvigProgressRefl(network.constraints, vars0, log0, network.touched, Elements(c));
      done' := done;
      changed := false;
      var j := 0;
      while j < |c|
        invariant 0 <= j <= |c|
        invariant network.Valid()
        invariant NorvigProgress(network.constraints, vars0, log0, old(network.touched),
                                 network.vars, trail.log, network.touched, Elements(c), changed)
        invariant done <= done' && forall j' :: 0 <= j' < j ==> c[j'] in done'
        invariant forall d :: d in done' ==> Settled(network.constraints, network.vars, d)
        invariant forall d :: 0 <= d < |network.vars| && network.vars[d].value != vars0[d].value ==> d in done'
      {
        var v := c[j];
        ghost var before := network.vars;
        ghost var marksBefore := network.touched;
        ghost var logBefore := trail.log;
        var removed := NorvigVisit(v, done');
        assert {v} <= Elements(c);
        NorvigProgressStep(network.constraints, vars0, log0, old(network.touched), before, logBefore, marksBefore,
                           network.vars, trail.log, network.touched, Elements(c), {v}, changed, removed);
        if removed {
          changed := true;
        }
        done' := done' + {v};
        j := j + 1;
      }
    }

    /** One pass of norvigCheck over the frontier `ks`: every member of every
        listed constraint is visited and joins `done`; reports whether any
        elimination shrank a domain, and changes nothing when `ks` is empty. */
    method NorvigPass(ks: seq<nat>, ghost done: set<nat>) returns (changed: bool, ghost done': set<nat>)
      requires Valid() && forall i :: 0 <= i < |ks| ==> ks[i] < |network.constraints|
      requires forall d :: d in done ==> Settled(network.constraints, network.vars, d)
      modifies network, trail
      ensures Valid()
      ensures NorvigProgress(network.constraints, old(network.vars), old(trail.log), old(network.touched),
                             network.vars, trail.log, network.touched, Members(network.constraints, ks), changed)
      ensures done <= done'
      ensures forall i, j :: 0 <= i < |ks| && 0 <= j < |network.constraints[ks[i]]| ==> network.constraints[ks[i]][j] in done'
      ensures forall d :: d in done' ==> Settled(network.constraints, network.vars, d)
      ensures forall d :: 0 <= d < |network.vars| && network.vars[d].value != old(network.vars)[d].value ==> d in done'
      ensures ks == [] ==> !changed && network.vars == old(network.vars) && network.touched == old(network.touched) && trail.log == old(trail.log)
    {
      ghost var vars0 := network.vars;
      ghost var log0 := trail.log;
      NorvigProgressRefl(network.constraints, vars0, log0, network.touched, Members(network.constraints, ks));
      done' := done;
      changed := false;
      var i := 0;
      while i < |ks|
        invariant 0 <= i <= |ks|
        invariant network.Valid()
        invariant NorvigProgress(network.constraints, vars0, log0, old(network.touched),
                                 network.vars, trail.log, network.touched, Members(network.constraints, ks), changed)
        invariant done <= done'
        invariant forall i', j :: 0 <= i' < i && 0 <= j < |network.constraints[ks[i']]| ==> network.constraints[ks[i']][j] in done'
        invariant forall d :: d in done' ==> Settled(network.constraints, network.vars, d)
        invariant forall d :: 0 <= d < |network.vars| && network.vars[d].value != vars0[d].value ==> d in done'
        invariant i == 0 ==> !changed && network.vars == vars0 && network.touched == old(network.touched) && trail.log == log0
      {
        ghost var before := network.vars;
        ghost var marksBefore := network.touched;
        ghost var logBefore := trail.log;
        var c;
        ghost var doneBefore := done';
        c, done' := NorvigMembers(network.constraints[ks[i]], done');
        forall i', j | 0 <= i' <= i && 0 <= j < |network.constraints[ks[i']]|
          ensures network.constraints[ks[i']][j] in done'
        {
          if i' < i {
            assert network.constraints[ks[i']][j] in doneBefore;
          }
        }
        MembersListed(network.constraints, ks, i);
        NorvigProgressStep(network.constraints, vars0, log0, old(network.touched), before, logBefore, marksBefore,
                           network.vars, trail.log, network.touched, Members(network.constraints, ks),
                           Elements(network.constraints[ks[i]]), changed, c);
        if c {
          changed := true;
        }
        i := i + 1;
      }
    }

    /** norvigCheck: forward checking, plus assigning an unassigned member
        the first value that none of its neighbours can take, repeated until
        a pass removes nothing; then reports whether every domain is non-empty.
        Every member of a constraint modified on entry ends settled, as does
        every member of the last frontier and every variable it assigned, and
        every member of a constraint with a member the check changed, except
        where that change is still marked: the last pass's assignments are
        not revisited. */
    method NorvigCheck() returns (ok: bool, ghost lastFrontier: seq<nat>)
      requires Valid()
      modifies network, trail
      ensures Valid()
      ensures Undoable(old(trail.log), trail.log, old(network.vars), network.vars)
      ensures Narrows(old(network.vars), network.vars)
      ensures Justified(network.constraints, old(network.vars), network.vars)
      ensures MarkedSettled(network.constraints, network.vars, old(network.touched))
      ensures MarkedSettled(network.constraints, network.vars, Changed(old(network.vars), network.vars) - network.touched)
      ensures FrontierSettled(network.constraints, network.vars, lastFrontier)
      ensures forall i :: 0 <= i < |network.vars| && network.vars[i].value != old(network.vars)[i].value ==>
        Settled(network.constraints, network.vars, i)
      ensures MarkedByAssignment(old(network.vars), network.vars, {}, network.touched)
      ensures forall s :: Around(network.constraints, s) <= s && old(network.touched) <= s ==>
        Changed(old(network.vars), network.vars) <= s
      ensures old(network.touched) == {} ==> network.vars == old(network.vars) && trail.log == old(trail.log)
      ensures ok <==> NoEmptyDomain(network.vars)
    {
      ghost var vars0 := network.vars;
      ghost var log0 := trail.log;
      ghost var touched0 := network.touched;
      UndoableRefl(log0, vars0);
      lastFrontier := [];
      ghost var done: set<nat> := {};
      ghost var handled: set<nat> := {};
      ghost var passed := false;
      var numChanges := 0;
      while numChanges == 0
        invariant network.Valid()
        invariant Undoable(log0, trail.log, vars0, network.vars)
        invariant Narrows(vars0, network.vars)
        invariant Justified(network.constraints, vars0, network.vars)
        invariant numChanges == 0 || numChanges == 1
        invariant numChanges == 1 ==> passed && FrontierSettled(network.constraints, network.vars, lastFrontier)
        invariant numChanges == 1 ==> MarkedByAssignment(vars0, network.vars, {}, network.touched)
        invariant !passed ==> network.touched == touched0
        invariant forall d :: d in done ==> Settled(network.constraints, network.vars, d)
        invariant forall d :: 0 <= d < |network.vars| && network.vars[d].value != vars0[d].value ==> d in done
        invariant Covered(network.constraints, handled, done)
        invariant passed ==> touched0 <= handled
        invariant Changed(vars0, network.vars) <= handled + network.touched
        invariant forall s :: Around(network.constraints, s) <= s && touched0 <= s ==> handled <= s && network.touched <= s
        invariant touched0 == {} ==> network.vars == vars0 && trail.log == log0 && network.touched == {}
        decreases TotalSize(network.vars) + (if numChanges == 0 then 1 else 0)
      {
        numChanges := numChanges + 1;
        ghost var marks := network.touched;
        var modified := network.GetModifiedConstraints();
        lastFrontier := modified;
        ghost var before := network.vars;
        ghost var logBefore := trail.log;
        var changed;
        changed, done := NorvigPass(modified, done);
        if changed {
          numChanges := 0;
        } else {
          MarkedByAssignmentTrans(vars0, before, network.vars, {}, {}, network.touched);
        }
        PropagationComposes(network.constraints, vars0, before, network.vars);
        UndoableTrans(log0, logBefore, trail.log, vars0, before, network.vars);
        ChangedTransitive(vars0, before, network.vars);
        PassCovers(network.constraints, modified, marks, handled, done);
        forall s | Around(network.constraints, s) <= s && touched0 <= s
          ensures handled + marks <= s && network.touched <= s
        {
          FrontierAround(network.constraints, modified, marks);
          AroundMonotone(network.constraints, marks, s);
          AroundMonotone(network.constraints, Members(network.constraints, modified), s);
        }
        handled := handled + marks;
        passed := true;
      }
      CoveredSettled(network.constraints, network.vars, handled, done, touched0);
      CoveredSettled(network.constraints, network.vars, handled, done, Changed(vars0, network.vars) - network.touched);
      ok := AllDomainsNonEmpty();
    }

    /** checkConsistency: runs the configured check. Every check leaves the
        network narrowed, with each change undoable from the trail. */
    method CheckConsistency() returns (ok: bool)
      requires Valid()
      modifies network, trail
      ensures Valid()
      ensures Undoable(old(trail.log), trail.log, old(network.vars), network.vars)
      ensures Narrows(old(network.vars), network.vars)
      ensures Justified(network.constraints, old(network.vars), network.vars)
      ensures cChecks == AssignmentsOnly ==>
        network.vars == old(network.vars) && (ok <==> AllConsistent(network.vars, network.constraints))
      ensures cChecks == ForwardCheckingCC ==> SameValues(old(network.vars), network.vars)
      ensures PropagatingCheck(cChecks) ==> (ok <==> NoEmptyDomain(network.vars))
      ensures PropagatingCheck(cChecks) ==>
        MarkedSettled(network.constraints, network.vars, old(network.touched))
      ensures PropagatingCheck(cChecks) ==>
        MarkedSettled(network.constraints, network.vars, Changed(old(network.vars), network.vars) - network.touched)
      ensures cChecks == ForwardCheckingCC ==> network.touched == {}
      ensures PropagatingCheck(cChecks) ==>
        forall i :: 0 <= i < |network.vars| && network.vars[i].value != old(network.vars)[i].value ==>
          Settled(network.constraints, network.vars, i)
      ensures cChecks == TournCC ==> !ok && network.vars == old(network.vars) && trail.log == old(trail.log)
    {
      ghost var frontier: seq<nat>;
      match cChecks
      case ForwardCheckingCC =>
        ok, frontier := ForwardChecking();
        assert Changed(old(network.vars), network.vars) - network.touched == Changed(old(network.vars), network.vars);
      case NorvigCheckCC =>
        ok, frontier := NorvigCheck();
      case TournCC =>
        ok := false;
        UndoableRefl(trail.log, network.vars);
      case AssignmentsOnly =>
        ok := AssignmentsCheck();
        UndoableRefl(trail.log, network.vars);
    }

    // ---------------------------------------------------------------
    // Value orderings
    // ---------------------------------------------------------------

    /** getValuesInOrder: the domain's values sorted ascending. */
    method GetValuesInOrder(v: nat) returns (r: seq<int>)
      requires Valid() && v < network.size
      ensures multiset(r) == multiset(network.vars[v].domain)
      ensures Ascending(r)
      ensures forall q :: Ascending(q) && multiset(q) == multiset(network.vars[v].domain) ==> q == r
    {
      var d := network.vars[v].domain;
      var vals := new int[|d|](i requires 0 <= i < |d| => d[i]);
      var keys := new int[|d|](i requires 0 <= i < |d| => d[i]);
      assert vals[..] == d;
      SortByKey(vals, keys, x => x);
      assert keys[..] == vals[..];
      r := vals[..];
      forall q | Ascending(q) && multiset(q) == multiset(d) ensures q == r {
        SortedPermutationUnique(q, r);
      }
    }

    /** The inner counting loop of getValuesLCVOrder: how many neighbours of
        `v` still have `x` in their domain. */
    method CountNeighboursHolding(v: nat, x: int) returns (count: nat)
      requires Valid()
      ensures count == CountHolding(network.vars, Neighbors(network.constraints, network.size, v), x)
    {
      var ns := Neighbors(network.constraints, network.size, v);
      count := 0;
      var k := 0;
      while k < |ns|
        invariant 0 <= k <= |ns|
        invariant count + CountHolding(network.vars, ns[k..], x) == CountHolding(network.vars, ns, x)
      {
        assert ns[k..][1..] == ns[k + 1..];
        assert ns[k] in ns;
        if x in network.vars[ns[k]].domain {
          count := count + 1;
        }
        k := k + 1;
      }
    }

    /** getValuesLCVOrder: the domain's values ordered by how many neighbour
        domains contain them, fewest first (the order among equal counts is
        whatever the sort leaves). */
    method GetValuesLCVOrder(v: nat) returns (r: seq<int>)
      requires Valid() && v < network.size
      ensures multiset(r) == multiset(network.vars[v].domain)
      ensures LeastConstrainingFirst(network.constraints, network.vars, v, r)
    {
      var valuesInOrder := GetValuesInOrder(v);
      var n := |valuesInOrder|;
      ghost var ns := Neighbors(network.constraints, network.size, v);
      var vals := new int[n](i requires 0 <= i < n => valuesInOrder[i]);
      var counts := new int[n];
      var i := 0;
      while i < n
        invariant 0 <= i <= n
        invariant vals[..] == valuesInOrder
        invariant forall k :: 0 <= k < i ==> counts[k] == CountHolding(network.vars, ns, vals[k])
      {
        counts[i] := CountNeighboursHolding(v, valuesInOrder[i]);
        i := i + 1;
      }
      ghost var vs := network.vars;
      ghost var key := x => CountHolding(vs, ns, x);
      SortByKey(vals, counts, key);
      r := vals[..];
      forall a, b | 0 <= a < b < |r|
        ensures CountHolding(network.vars, ns, r[a]) <= CountHolding(network.vars, ns, r[b])
      {
        assert counts[a] <= counts[b];
      }
    }

    /** getNextValues: dispatches on the configured ordering; the tournament
        slot returns no values. */
    method GetNextValues(v: nat) returns (r: seq<int>)
      requires Valid() && v < network.size
      ensures valHeuristics != TournVal ==> multiset(r) == multiset(network.vars[v].domain)
      ensures valHeuristics == InOrder ==> Ascending(r)
      ensures valHeuristics == LeastConstrainingValue ==> LeastConstrainingFirst(network.constraints, network.vars, v, r)
      ensures valHeuristics == TournVal ==> r == []
    {
      match valHeuristics
      case LeastConstrainingValue => r := GetValuesLCVOrder(v);
      case TournVal => r := [];
      case InOrder => r := GetValuesInOrder(v);
    }

    // ---------------------------------------------------------------
    // Engine
    // ---------------------------------------------------------------

    /** One attempt of solve's value loop: a trail marker, a push of `v`,
        the assignment of `x` to `v`, then the configured consistency check.
        Undoing back to the marker returns to the state before the attempt. */
    method TryValue(v: nat, x: int) returns (ok: bool)
      requires Valid() && v < network.size && network.vars[v].value.None? && x in network.vars[v].domain
      modifies network, trail
      ensures Valid()
      ensures Undoable(old(trail.log) + [Marker], trail.log, old(network.vars), network.vars)
      ensures Narrows(old(network.vars), network.vars) && network.vars[v].value == Some(x)
      ensures Unassigned(network.vars) < Unassigned(old(network.vars))
      ensures cChecks == AssignmentsOnly ==> network.vars == old(network.vars)[v := VarState([x], Some(x))]
      ensures cChecks == AssignmentsOnly ==> (ok <==> AllConsistent(network.vars, network.constraints))
      ensures PropagatingCheck(cChecks) ==> (ok <==> NoEmptyDomain(network.vars))
      ensures PropagatingCheck(cChecks) ==>
        Settled(network.constraints, network.vars, v) &&
        forall d :: 0 <= d < |network.vars| && Settled(network.constraints, old(network.vars), d) ==>
          Settled(network.constraints, network.vars, d)
    {
      ghost var vars0 := network.vars;
      ghost var logMark := trail.log + [Marker];
      trail.PlaceTrailMarker();
      trail.Push(network, v);
      network.AssignValue(v, x);
      ghost var assignedState := network.vars;
      UndoableRefl(logMark, vars0);
      PushThenChange(logMark, logMark, vars0, vars0, v, assignedState[v]);
      ghost var logAssigned := trail.log;
      ghost var marked := network.touched;
      ok := CheckConsistency();
      UndoableTrans(logMark, logAssigned, trail.log, vars0, assignedState, network.vars);
      NarrowsTransitive(vars0, assignedState, network.vars);
      UnassignedDecreases(vars0, network.vars, v);
      if PropagatingCheck(cChecks) {
        MarkedSettledCovers(network.constraints, network.vars, marked, v);
        forall d | 0 <= d < |network.vars| && Settled(network.constraints, vars0, d)
          ensures Settled(network.constraints, network.vars, d)
        {
          if d != v {
            SettledStable(network.constraints, vars0, assignedState, d);
            if network.vars[d].value == assignedState[d].value {
              SettledStable(network.constraints, assignedState, network.vars, d);
            }
          }
        }
      }
    }

    /** trail.undo after a failed attempt: the network and the trail return
        to their states before the attempt's marker. */
    method Backtrack(ghost log0: seq<Entry>, ghost vars0: seq<VarState>)
      requires Valid() && Undoable(log0 + [Marker], trail.log, vars0, network.vars)
      modifies network, trail
      ensures Valid() && network.vars == vars0 && trail.log == log0
    {
      UndoRestores(log0, trail.log, vars0, network.vars);
      trail.Undo(network);
    }

    /** solve's base case, when no variable is selected: success when every
        variable is assigned, otherwise "Error" is printed. */
    method Finish()
      requires Valid() && !hasSolution
      modifies this
      ensures hasSolution <==> AllAssigned(network.vars)
      ensures errorReported <==> old(errorReported) || !AllAssigned(network.vars)
    {
      var i := 0;
      while i < network.size
        invariant 0 <= i <= network.size
        invariant forall j :: 0 <= j < i ==> network.vars[j].value.Some?
      {
        if network.vars[i].value.None? {
          errorReported := true;
          return;
        }
        i := i + 1;
      }
      hasSolution := true;
    }

    /** One pass of solve's value loop for `x`: the attempt, the recursive
        search when the check accepts it, and the undo when that search
        finds no solution. */
    method Attempt(v: nat, x: int)
      requires Valid() && !hasSolution && v < network.size && network.vars[v].value.None? && x in network.vars[v].domain
      modifies this, network, trail
      decreases Unassigned(network.vars), 0
      ensures Valid()
      ensures !hasSolution ==> network.vars == old(network.vars) && trail.log == old(trail.log)
      ensures hasSolution ==> Narrows(old(network.vars), network.vars) && AllAssigned(network.vars)
      ensures hasSolution && cChecks == AssignmentsOnly ==> AllConsistent(network.vars, network.constraints)
      ensures hasSolution && PropagatingCheck(cChecks) &&
              AllSettled(network.constraints, old(network.vars)) && Pinned(old(network.vars))
        ==> AllConsistent(network.vars, network.constraints)
      ensures old(errorReported) ==> errorReported
      ensures errorReported && !old(errorReported) ==> varHeuristics == TournVar
      ensures Complete() && (exists b: seq<VarState> :: Completes(network.constraints, old(network.vars), b) && b[v].value == Some(x)) ==> hasSolution
    {
      ghost var vars0 := network.vars;
      ghost var log0 := trail.log;
      var ok := TryValue(v, x);
      ghost var checked := network.vars;
      if Complete() && exists b: seq<VarState> :: Completes(network.constraints, vars0, b) && b[v].value == Some(x) {
        var b: seq<VarState> :| Completes(network.constraints, vars0, b) && b[v].value == Some(x);
        CompletionAssign(network.constraints, vars0, b, v);
        CompletionConsistent(network.constraints, checked, b);
      }
      if ok {
        if PropagatingCheck(cChecks) &&
           AllSettled(network.constraints, vars0) && Pinned(vars0) {
          PinnedKept(vars0, checked);
        }
        Solve();
        if hasSolution {
          NarrowsTransitive(vars0, checked, network.vars);
          return;
        }
      }
      Backtrack(log0, vars0);
    }

    /** solve: picks the next variable and tries its values in the configured
        order (marker, push, assign, check, recurse), undoing each attempt that
        does not lead to a solution. With no variable left to pick, success is
        recorded when every variable is assigned and an error otherwise. */
    method Solve()
      requires Valid()
      modifies this, network, trail
      decreases Unassigned(network.vars), 1
      ensures Valid()
      ensures old(hasSolution) ==>
        hasSolution && network.vars == old(network.vars) && trail.log == old(trail.log) && errorReported == old(errorReported)
      ensures !hasSolution ==> network.vars == old(network.vars) && trail.log == old(trail.log)
      ensures hasSolution ==> Narrows(old(network.vars), network.vars)
      ensures hasSolution && !old(hasSolution) ==> AllAssigned(network.vars)
      ensures hasSolution && AllAssigned(old(network.vars)) ==> network.vars == old(network.vars)
      ensures hasSolution && !old(hasSolution) && cChecks == AssignmentsOnly && !AllAssigned(old(network.vars)) ==>
        AllConsistent(network.vars, network.constraints)
      ensures hasSolution && !old(hasSolution) && PropagatingCheck(cChecks) &&
              AllSettled(network.constraints, old(network.vars)) && Pinned(old(network.vars))
        ==> AllConsistent(network.vars, network.constraints)
      ensures old(errorReported) ==> errorReported
      ensures errorReported && !old(errorReported) ==> varHeuristics == TournVar && !AllAssigned(network.vars)
      ensures !old(hasSolution) && varHeuristics == TournVar && !AllAssigned(old(network.vars)) ==> errorReported && !hasSolution
      ensures !old(hasSolution) && AllAssigned(old(network.vars)) ==> hasSolution && network.vars == old(network.vars)
      ensures !old(hasSolution) && Complete() && (exists b: seq<VarState> :: Completes(network.constraints, old(network.vars), b)) ==> hasSolution
    {
      if hasSolution {
        return;
      }
      var next := SelectNextVariable();
      if next.None? {
        Finish();
        if hasSolution && PropagatingCheck(cChecks) &&
           AllSettled(network.constraints, network.vars) && Pinned(network.vars) {
          SettledConsistent(network.constraints, network.vars);
        }
        return;
      }
      var v := next.value;
      var values := GetNextValues(v);
      if Complete() {
        CompletionListed(network.constraints, network.vars, v, values);
      }
      var k := 0;
      while k < |values|
        invariant 0 <= k <= |values|
        invariant network.Valid() && !hasSolution
        invariant network.vars == old(network.vars) && trail.log == old(trail.log)
        invariant old(errorReported) ==> errorReported
        invariant errorReported && !old(errorReported) ==> varHeuristics == TournVar
        invariant Complete() ==> forall b: seq<VarState> :: Completes(network.constraints, network.vars, b) ==>
          exists j :: k <= j < |values| && b[v].value == Some(values[j])
      {
        assert values[k] in multiset(values);
        Attempt(v, values[k]);
        if hasSolution {
          return;
        }
        k := k + 1;
      }

    }
  }
}
