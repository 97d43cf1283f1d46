/** The Trail: an undo log of variable snapshots segmented by markers.
    Every change the solver makes to a variable is preceded by a push of
    that variable's state; undo walks the log backwards to the last marker,
    putting each recorded state back. */
module Trails {
  import opened ConstraintNetworks

  datatype Entry = Marker | Snapshot(id: nat, state: VarState)

  /** The states obtained by restoring every snapshot of `log`, the most
      recent first. Ids outside the network are skipped. */
  function Replay(vars: seq<VarState>, log: seq<Entry>): (r: seq<VarState>)
    ensures |r| == |vars|
    decreases |log|
  {
    if log == [] then vars
    else
      var e := log[|log| - 1];
      var restored := if e.Snapshot? && e.id < |vars| then vars[e.id := e.state] else vars;
      Replay(restored, log[..|log| - 1])
  }

  predicate NoMarkers(log: seq<Entry>) {
    forall k :: 0 <= k < |log| ==> log[k].Snapshot?
  }

  /** The trail grew from `log0` to `log` by snapshots only, and undoing the
      added snapshots from `vars` gives back `vars0`: everything changed in
      between was pushed before it changed. */
  ghost predicate Undoable(log0: seq<Entry>, log: seq<Entry>, vars0: seq<VarState>, vars: seq<VarState>) {
    && |log0| <= |log|
    && log[..|log0|] == log0
    && NoMarkers(log[|log0|..])
    && Replay(vars, log[|log0|..]) == vars0
  }

  /** Restoring a concatenated log undoes its second part first. */
  lemma {:induction false} ReplayConcat(vars: seq<VarState>, l1: seq<Entry>, l2: seq<Entry>)
    ensures Replay(vars, l1 + l2) == Replay(Replay(vars, l2), l1)
    decreases |l2|
  {
    if l2 != [] {
      var l := l1 + l2;
      var e := l2[|l2| - 1];
      assert l[|l| - 1] == e;
      assert l[..|l| - 1] == l1 + l2[..|l2| - 1];
      var restored := if e.Snapshot? && e.id < |vars| then vars[e.id := e.state] else vars;
      assert Replay(vars, l) == Replay(restored, l1 + l2[..|l2| - 1]);
      assert Replay(vars, l2) == Replay(restored, l2[..|l2| - 1]);
      ReplayConcat(restored, l1, l2[..|l2| - 1]);
    } else {
      assert l1 + l2 == l1;
    }
  }

  /** Nothing pushed, nothing changed: trivially undoable. */
  lemma UndoableRefl(log: seq<Entry>, vars: seq<VarState>)
    ensures Undoable(log, log, vars, vars)
  {
    assert log[|log|..] == [];
  }

  /** Undoable segments compose. */
  lemma UndoableTrans(l0: seq<Entry>, l1: seq<Entry>, l2: seq<Entry>, s0: seq<VarState>, s1: seq<VarState>, s2: seq<VarState>)
    requires Undoable(l0, l1, s0, s1) && Undoable(l1, l2, s1, s2)
    ensures Undoable(l0, l2, s0, s2)
  {
    assert l2[|l0|..] == l1[|l0|..] + l2[|l1|..];
    ReplayConcat(s2, l1[|l0|..], l2[|l1|..]);
  }

  /** Pushing a variable's current state and then changing that variable
      keeps the segment undoable. */
  lemma {:induction false} PushThenChange(log0: seq<Entry>, log: seq<Entry>, vars0: seq<VarState>, vars: seq<VarState>, id: nat, st: VarState)
    requires Undoable(log0, log, vars0, vars) && id < |vars|
    ensures Undoable(log0, log + [Snapshot(id, vars[id])], vars0, vars[id := st])
  {
    var log' := log + [Snapshot(id, vars[id])];
    assert log'[..|log0|] == log0;
    assert log'[|log0|..] == log[|log0|..] + [Snapshot(id, vars[id])];
    ReplayConcat(vars[id := st], log[|log0|..], [Snapshot(id, vars[id])]);
    assert [Snapshot(id, vars[id])][..0] == [];
    assert vars[id := st][id := vars[id]] == vars;
  }

  /** The index of the last marker, or -1 when there is none. */
  function LastMarker(log: seq<Entry>): (m: int)
    ensures -1 <= m < |log|
    ensures m >= 0 ==> log[m] == Marker
    ensures forall k :: m < k < |log| ==> log[k].Snapshot?
    decreases |log|
  {
    if log == [] then -1
    else if log[|log| - 1] == Marker then |log| - 1
    else LastMarker(log[..|log| - 1])
  }

  class Trail {
    var log: seq<Entry>

    constructor ()
      ensures log == []
    {
      log := [];
    }

    /** Trail::placeTrailMarker. */
    method PlaceTrailMarker()
      modifies this
      ensures log == old(log) + [Marker]
    {
      log := log + [Marker];
    }

    /** Trail::push: records the variable's current state. */
    method Push(net: ConstraintNetwork, id: nat)
      requires id < |net.vars|
      modifies this
      ensures log == old(log) + [Snapshot(id, net.vars[id])]
    {
      log := log + [Snapshot(id, net.vars[id])];
    }

    /** Trail::undo: pops the log back to and including the last marker,
        restoring each popped snapshot, most recent first. */
    method Undo(net: ConstraintNetwork)
      requires net.Valid() && LastMarker(log) >= 0
      modifies this, net
      ensures net.Valid() && net.touched == old(net.touched)
      ensures log == old(log)[..LastMarker(old(log))]
      ensures net.vars == Replay(old(net.vars), old(log)[LastMarker(old(log)) + 1..])
    {
      ghost var m := LastMarker(log);
      ghost var seg := log[m + 1..];
      while log[|log| - 1].Snapshot?
        invariant m < |log| <= |old(log)| && log == old(log)[..|log|]
        invariant net.Valid() && net.touched == old(net.touched)
        invariant Replay(net.vars, log[m + 1..]) == Replay(old(net.vars), seg)
        decreases |log|
      {
        var e := log[|log| - 1];
        assert log[m + 1..][..|log[m + 1..]| - 1] == log[m + 1..|log| - 1];
        if e.id < net.size {
          net.Restore(e.id, e.state);
        }
        log := log[..|log| - 1];
      }
      assert |log| - 1 == m;
      assert log[m + 1..] == [];
      log := log[..|log| - 1];
    }
  }

  /** Undo after a marker and a segment of pushes-before-changes restores
      both the log and the variables to what they were at the marker. */
  lemma UndoRestores(log0: seq<Entry>, log: seq<Entry>, vars0: seq<VarState>, vars: seq<VarState>)
    requires Undoable(log0 + [Marker], log, vars0, vars)
    ensures LastMarker(log) == |log0|
    ensures log[..LastMarker(log)] == log0
    ensures Replay(vars, log[LastMarker(log) + 1..]) == vars0
  {
    assert log[|log0|] == Marker;
  }
}
