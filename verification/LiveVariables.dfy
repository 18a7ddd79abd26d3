/**
  Live-variable analysis over code path segments: the worklist solver and what its
  result means.  Segments are numbered in the order in which they are registered, and
  arrays of variables that the program only ever uses as sets (`out`, `diff`) are sets.
*/
module LiveVariablesAnalysis {
  import opened Wrappers

  type SegmentId = nat
  type Variable = string

  /** One occurrence of an identifier; `x += 1` is a reference that both reads and writes. */
  datatype Reference = Reference(identifier: nat, resolved: Option<Variable>, isRead: bool, isWrite: bool)

  ghost function ReadsOf(refs: seq<Reference>): set<Variable> {
    set r | r in refs && r.isRead && r.resolved.Some? :: r.resolved.value
  }

  ghost function WritesOf(refs: seq<Reference>): set<Variable> {
    set r | r in refs && r.isWrite && r.resolved.Some? :: r.resolved.value
  }

  // ----- the equations -----

  /** For each segment: its successors, the variables it reads and those it writes. */
  datatype Problem = Problem(next: seq<seq<SegmentId>>, gen: seq<set<Variable>>, kill: seq<set<Variable>>)
  {
    ghost predicate Valid() {
      && |next| == |gen| == |kill|
      && forall id, k :: 0 <= id < |next| && 0 <= k < |next[id]| ==> next[id][k] < |next|
    }
  }

  type LiveIn = seq<set<Variable>>

  ghost predicate Edge(p: Problem, id: SegmentId, n: SegmentId) {
    id < |p.next| && n in p.next[id]
  }

  ghost function Successors(p: Problem, ins: LiveIn, id: SegmentId): set<Variable>
    requires p.Valid() && id < |p.next| == |ins|
  {
    set n, v | n in p.next[id] && v in ins[n] :: v
  }

  ghost function Transfer(p: Problem, ins: LiveIn, id: SegmentId): set<Variable>
    requires p.Valid() && id < |p.next| == |ins|
  {
    p.gen[id] + (Successors(p, ins, id) - p.kill[id])
  }

  ghost predicate Closed(p: Problem, ins: LiveIn)
    requires p.Valid()
  {
    |ins| == |p.next| && forall id :: 0 <= id < |ins| ==> Transfer(p, ins, id) <= ins[id]
  }

  ghost predicate Below(a: LiveIn, b: LiveIn) {
    |a| == |b| && forall id :: 0 <= id < |a| ==> a[id] <= b[id]
  }

  /** The least solution of the liveness equations. */
  ghost predicate IsLeastSolution(p: Problem, ins: LiveIn)
    requires p.Valid()
  {
    && |ins| == |p.next|
    && (forall id :: 0 <= id < |ins| ==> ins[id] == Transfer(p, ins, id))
    && (forall other :: Closed(p, other) ==> Below(ins, other))
  }

  // ----- live along a path -----

  ghost predicate IsPath(p: Problem, path: seq<SegmentId>) {
    && path != []
    && path[0] < |p.next|
    && (|path| > 1 ==> Edge(p, path[0], path[1]) && IsPath(p, path[1..]))
  }

  /** `v` is read in the last segment of the path and written in none before. */
  ghost predicate CarriesTo(p: Problem, path: seq<SegmentId>, v: Variable)
    requires p.Valid() && IsPath(p, path)
  {
    if |path| == 1 then v in p.gen[path[0]] else v !in p.kill[path[0]] && CarriesTo(p, path[1..], v)
  }

  ghost predicate LiveAlongSomePath(p: Problem, id: SegmentId, v: Variable)
    requires p.Valid()
  {
    exists path :: IsPath(p, path) && path[0] == id && CarriesTo(p, path, v)
  }

  lemma {:induction false} PathImpliesLive(p: Problem, ins: LiveIn, path: seq<SegmentId>, v: Variable)
    requires p.Valid() && Closed(p, ins) && IsPath(p, path) && CarriesTo(p, path, v)
    ensures v in ins[path[0]]
    decreases |path|
  {
    assert Transfer(p, ins, path[0]) <= ins[path[0]];
    if |path| > 1 {
      PathImpliesLive(p, ins, path[1..], v);
      assert v in Successors(p, ins, path[0]);
    }
  }

  lemma OneSegmentBack(p: Problem, id: SegmentId, n: SegmentId, v: Variable)
    requires p.Valid() && Edge(p, id, n) && v !in p.kill[id]
    requires LiveAlongSomePath(p, n, v)
    ensures LiveAlongSomePath(p, id, v)
  {
    var path :| IsPath(p, path) && path[0] == n && CarriesTo(p, path, v);
    var longer := [id] + path;
    assert longer[1..] == path;
    assert IsPath(p, longer) && CarriesTo(p, longer, v);
  }

  /** The part of a solution that paths justify is itself closed under the equations. */
  lemma JustifiedPartIsClosed(p: Problem, ins: LiveIn, part: LiveIn, id: SegmentId, v: Variable)
    requires p.Valid() && |ins| == |part| == |p.next| && id < |ins|
    requires ins[id] == Transfer(p, ins, id)
    requires forall n, w :: 0 <= n < |ins| && w in part[n] ==> w in ins[n] && LiveAlongSomePath(p, n, w)
    requires v in Transfer(p, part, id)
    ensures v in ins[id] && LiveAlongSomePath(p, id, v)
  {
    if v in p.gen[id] {
      assert IsPath(p, [id]) && CarriesTo(p, [id], v);
    } else {
      var n :| n in p.next[id] && v in part[n];
      assert v in Successors(p, ins, id);
      OneSegmentBack(p, id, n, v);
    }
  }

  /**
    The least solution says of every segment exactly which variables some path from it
    reads before writing them, a segment that reads counting as reading first.
  */
  lemma LeastSolutionIsLiveness(p: Problem, ins: LiveIn, id: SegmentId, v: Variable)
    requires p.Valid() && IsLeastSolution(p, ins) && id < |p.next|
    ensures v in ins[id] <==> LiveAlongSomePath(p, id, v)
  {
    if LiveAlongSomePath(p, id, v) {
      var path :| IsPath(p, path) && path[0] == id && CarriesTo(p, path, v);
      PathImpliesLive(p, ins, path, v);
    }
    if v in ins[id] {
      var part := seq(|ins|, m requires 0 <= m < |ins| => set w | w in ins[m] && LiveAlongSomePath(p, m, w));
      forall m: nat | m < |ins|
        ensures Transfer(p, part, m) <= part[m]
      {
        forall w | w in Transfer(p, part, m)
          ensures w in part[m]
        {
          JustifiedPartIsClosed(p, ins, part, m, w);
        }
      }
      assert Closed(p, part);
      assert Below(ins, part);
    }
  }

  // ----- invariants of the solver -----

  ghost function Universe(p: Problem): set<Variable> {
    set id, v | 0 <= id < |p.gen| && v in p.gen[id] :: v
  }

  /** What the solver can still add; it shrinks whenever an `in` changes. */
  ghost function Absent(p: Problem, ins: LiveIn): set<(SegmentId, Variable)> {
    set id: nat, v | 0 <= id < |ins| && v in Universe(p) && v !in ins[id] :: (id, v)
  }

  /** Nothing is in an `in` that its equation, the universe and every closed assignment do not justify. */
  ghost predicate Justified(p: Problem, ins: LiveIn)
    requires p.Valid()
  {
    && |ins| == |p.next|
    && (forall id :: 0 <= id < |ins| ==> ins[id] <= Transfer(p, ins, id))
    && (forall id :: 0 <= id < |ins| ==> ins[id] <= Universe(p))
    && (forall other :: Closed(p, other) ==> Below(ins, other))
  }

  /** Every segment off the worklist satisfies its equations. */
  ghost predicate SettledOff(p: Problem, ins: LiveIn, outs: LiveIn, worklist: seq<SegmentId>)
    requires p.Valid() && |ins| == |outs| == |p.next|
  {
    forall id: nat :: id < |ins| && id !in worklist ==>
      ins[id] == Transfer(p, ins, id) && outs[id] == Successors(p, ins, id)
  }

  lemma TransferIsMonotone(p: Problem, a: LiveIn, b: LiveIn, id: SegmentId)
    requires p.Valid() && id < |p.next| == |a| && Below(a, b)
    ensures Transfer(p, a, id) <= Transfer(p, b, id)
  {
  }

  lemma TransferStaysInUniverse(p: Problem, ins: LiveIn, id: SegmentId)
    requires p.Valid() && id < |p.next| == |ins|
    requires forall n :: 0 <= n < |ins| ==> ins[n] <= Universe(p)
    ensures Transfer(p, ins, id) <= Universe(p)
  {
  }

  /** One update at `current` keeps everything justified. */
  lemma UpdateIsJustified(p: Problem, ins: LiveIn, current: SegmentId, ins': LiveIn)
    requires p.Valid() && Justified(p, ins) && current < |ins|
    requires ins' == ins[current := Transfer(p, ins, current)]
    ensures Justified(p, ins')
  {
    assert Below(ins, ins');
    forall id | 0 <= id < |ins|
      ensures ins'[id] <= Transfer(p, ins', id) && ins'[id] <= Universe(p)
    {
      TransferIsMonotone(p, ins, ins', id);
      TransferStaysInUniverse(p, ins, id);
    }
    forall other | Closed(p, other)
      ensures Below(ins', other)
    {
      TransferIsMonotone(p, ins, other, current);
    }
  }

  /** An update that changes something leaves less to add. */
  lemma UpdateMakesProgress(p: Problem, ins: LiveIn, current: SegmentId, ins': LiveIn)
    requires p.Valid() && Justified(p, ins') && |ins| == |ins'| && current < |ins|
    requires ins' == ins[current := ins'[current]] && ins[current] < ins'[current]
    ensures Absent(p, ins') < Absent(p, ins)
  {
    var v :| v in ins'[current] && v !in ins[current];
    assert (current, v) in Absent(p, ins) && (current, v) !in Absent(p, ins');
  }

  /** After an update at `current`, only its predecessors can be out of date. */
  lemma UpdateKeepsSettled(p: Problem, ins: LiveIn, outs: LiveIn, worklist: seq<SegmentId>,
                           current: SegmentId, ins': LiveIn, outs': LiveIn, worklist': seq<SegmentId>)
    requires p.Valid() && |ins| == |outs| == |p.next| && current < |ins|
    requires SettledOff(p, ins, outs, worklist + [current])
    requires ins' == ins[current := Transfer(p, ins, current)]
    requires outs' == outs[current := Successors(p, ins, current)]
    requires forall id :: id in worklist ==> id in worklist'
    requires ins'[current] != ins[current] ==> forall id: nat :: Edge(p, id, current) ==> id in worklist'
    ensures SettledOff(p, ins', outs', worklist')
  {
    forall id: nat | id < |ins| && id !in worklist'
      ensures ins'[id] == Transfer(p, ins', id) && outs'[id] == Successors(p, ins', id)
    {
      assert id == current || id !in worklist + [current];
      assert Successors(p, ins', id) == Successors(p, ins, id) by {
        assert forall n :: n in p.next[id] ==> ins'[n] == ins[n] by {
          assert ins'[current] != ins[current] ==> !Edge(p, id, current);
        }
      }
    }
  }

  lemma SplitLast<T>(s: seq<T>)
    requires s != []
    ensures s == s[..|s| - 1] + [s[|s| - 1]]
  {
  }

  // ----- the solver -----

  /** Recomputes the `out` and the `in` of one segment; the latter is only replaced when it lacks something. */
  method Propagate(p: Problem, ins: LiveIn, id: SegmentId)
    returns (newOut: set<Variable>, newIn: set<Variable>, changed: bool)
    requires p.Valid() && id < |p.next| == |ins|
    ensures newOut == Successors(p, ins, id)
    ensures changed <==> !(Transfer(p, ins, id) <= ins[id])
    ensures newIn == if changed then Transfer(p, ins, id) else ins[id]
  {
    var next := p.next[id];
    newOut := {};
    for i := 0 to |next|
      invariant newOut == set n, v | n in next[..i] && v in ins[n] :: v
    {
      newOut := newOut + ins[next[i]];
    }
    assert next[..|next|] == next;
    var diff := newOut - p.kill[id];
    changed := !(p.gen[id] <= ins[id] && diff <= ins[id]);
    newIn := if changed then p.gen[id] + diff else ins[id];
  }

  /** ESLint links segments both ways. */
  ghost predicate Linked(p: Problem, prev: seq<seq<SegmentId>>) {
    && |prev| == |p.next|
    && (forall id: nat, n: nat :: Edge(p, id, n) && n < |prev| ==> id in prev[n])
    && (forall n, k :: 0 <= n < |prev| && 0 <= k < |prev[n]| ==> prev[n][k] < |prev|)
  }

  /**
    The worklist algorithm.  It terminates, and yields for every segment the least solution
    of the liveness equations and the matching `out`.
  */
  method Lva(p: Problem, prev: seq<seq<SegmentId>>) returns (liveIn: LiveIn, out: LiveIn)
    requires p.Valid() && Linked(p, prev)
    ensures IsLeastSolution(p, liveIn) && |out| == |p.next|
    ensures forall id :: 0 <= id < |out| ==> out[id] == Successors(p, liveIn, id)
  {
    var n := |p.next|;
    liveIn, out := seq(n, _ => {}), seq(n, _ => {});
    var worklist: seq<SegmentId> := seq(n, id => id);
    forall id: nat | id < n
      ensures id in worklist
    {
      assert worklist[id] == id;
    }
    while |worklist| > 0
      invariant |liveIn| == |out| == n
      invariant forall k :: 0 <= k < |worklist| ==> worklist[k] < n
      invariant Justified(p, liveIn)
      invariant SettledOff(p, liveIn, out, worklist)
      decreases Absent(p, liveIn), |worklist|
    {
      ghost var ins, outs := liveIn, out;
      ghost var rest: seq<SegmentId> := worklist[..|worklist| - 1];
      SplitLast(worklist);
      var current := worklist[|worklist| - 1];
      worklist := worklist[..|worklist| - 1];
      var newOut, newIn, changed := Propagate(p, liveIn, current);
      out, liveIn := out[current := newOut], liveIn[current := newIn];
      if changed {
        worklist := worklist + prev[current];
      }
      assert newIn == Transfer(p, ins, current) by {
        assert ins[current] <= Transfer(p, ins, current);
      }
      UpdateIsJustified(p, ins, current, liveIn);
      if changed {
        UpdateMakesProgress(p, ins, current, liveIn);
      }
      UpdateKeepsSettled(p, ins, outs, rest, current, liveIn, out, worklist);
    }
  }
}
