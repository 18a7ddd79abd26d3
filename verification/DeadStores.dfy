/**
  The rule on useless assignments: the references collected for each segment, the
  backward pass over a segment, and what a report says about the collected references of
  every path.  `EvaluationOrder` says what it is worth in executions.
*/
module DeadStores {
  import opened Wrappers
  import opened LiveVariablesAnalysis

  datatype Collected = Collected(gen: set<Variable>, kill: set<Variable>, references: seq<Reference>)
  {
    /** `gen` and `kill` summarise the collected references, all of which are resolved. */
    ghost predicate Valid() {
      && gen == ReadsOf(references)
      && kill == WritesOf(references)
      && forall r :: r in references ==> r.resolved.Some?
    }
  }

  /** The map from segment to live variables while the tree is visited. */
  class LiveVariablesMap {
    var segments: seq<Collected>

    ghost predicate Valid()
      reads this
    {
      forall id :: 0 <= id < |segments| ==> segments[id].Valid()
    }

    constructor ()
      ensures Valid() && segments == []
    {
      segments := [];
    }

    method StartSegment() returns (id: SegmentId)
      requires Valid()
      modifies this
      ensures Valid() && id == |old(segments)| && segments == old(segments) + [Collected({}, {}, [])]
    {
      id := |segments|;
      segments := segments + [Collected({}, {}, [])];
    }

    /** Collects a resolved reference behind those collected before, once. */
    method Add(id: SegmentId, ref: Reference)
      requires Valid() && id < |segments|
      modifies this
      ensures Valid() && |segments| == |old(segments)|
      ensures segments == old(segments)[id := segments[id]]
      ensures segments[id].references == old(segments[id].references)
        + if ref.resolved.Some? && ref !in old(segments[id].references) then [ref] else []
    {
      var lv := segments[id];
      match ref.resolved {
        case None =>
        case Some(variable) =>
          if ref.isRead {
            lv := lv.(gen := lv.gen + {variable});
          }
          if ref.isWrite {
            lv := lv.(kill := lv.kill + {variable});
          }
          if ref !in lv.references {
            lv := lv.(references := lv.references + [ref]);
          }
      }
      assert lv.Valid();
      segments := segments[id := lv];
    }
  }

  // ----- read before overwritten -----

  /** Whether `v` is read before it is overwritten, `after` telling what happens behind the last reference. */
  predicate ReadFirst(refs: seq<Reference>, v: Variable, after: bool) {
    if refs == [] then after
    else if refs[0].resolved != Some(v) then ReadFirst(refs[1..], v, after)
    else refs[0].isRead || (!refs[0].isWrite && ReadFirst(refs[1..], v, after))
  }

  /** A store that `checkSegment` reports, in terms of the variables alive behind the segment. */
  ghost predicate Reported(refs: seq<Reference>, k: nat, out: set<Variable>, shouldReport: Reference -> bool)
    requires k < |refs|
  {
    && refs[k].resolved.Some? && refs[k].isWrite && shouldReport(refs[k])
    && !ReadFirst(refs[k + 1..], refs[k].resolved.value, refs[k].resolved.value in out)
  }

  /** The backward pass; `shouldReport` stands for the filters that suppress a report. */
  method CheckSegment(refs: seq<Reference>, out: set<Variable>, shouldReport: Reference -> bool)
    returns (reports: seq<nat>)
    ensures forall k: nat :: k < |refs| ==> (k in reports <==> Reported(refs, k, out, shouldReport))
    ensures forall j :: 0 <= j < |reports| ==> reports[j] < |refs|
    ensures forall i, j :: 0 <= i < j < |reports| ==> reports[i] > reports[j]
  {
    var willBeRead := out;
    reports := [];
    for k := |refs| downto 0
      invariant forall v :: v in willBeRead <==> ReadFirst(refs[k..], v, v in out)
      invariant forall j :: 0 <= j < |reports| ==> k <= reports[j] < |refs|
      invariant forall j: nat :: k <= j < |refs| ==> (j in reports <==> Reported(refs, j, out, shouldReport))
      invariant forall i, j :: 0 <= i < j < |reports| ==> reports[i] > reports[j]
    {
      var ref := refs[k];
      assert refs[k..][1..] == refs[k + 1..];
      match ref.resolved {
        case None =>
        case Some(variable) =>
          if ref.isWrite {
            if variable !in willBeRead && shouldReport(ref) {
              reports := reports + [k];
            }
            willBeRead := willBeRead - {variable};
          }
          if ref.isRead {
            willBeRead := willBeRead + {variable};
          }
      }
    }
  }

  // ----- the segments of a program -----

  /** Every segment has successors among the segments, and summaries of its references. */
  ghost predicate Consistent(next: seq<seq<SegmentId>>, segments: seq<Collected>) {
    && |next| == |segments|
    && (forall id, k :: 0 <= id < |next| && 0 <= k < |next[id]| ==> next[id][k] < |next|)
    && forall id :: 0 <= id < |segments| ==> segments[id].Valid()
  }

  /** Control may go along these segments. */
  ghost predicate IsWalk(next: seq<seq<SegmentId>>, path: seq<SegmentId>) {
    && path != []
    && path[0] < |next|
    && (|path| > 1 ==> path[1] in next[path[0]] && IsWalk(next, path[1..]))
  }

  /** The last segment reads `v`, and none before it writes `v`. */
  ghost predicate LeadsToRead(next: seq<seq<SegmentId>>, segments: seq<Collected>, path: seq<SegmentId>, v: Variable)
    requires Consistent(next, segments) && IsWalk(next, path)
  {
    var refs := segments[path[0]].references;
    if |path| == 1 then v in ReadsOf(refs) else v !in WritesOf(refs) && LeadsToRead(next, segments, path[1..], v)
  }

  /** A segment that reads counts as reading first, whatever it writes before. */
  ghost predicate MayLeadToRead(next: seq<seq<SegmentId>>, segments: seq<Collected>, id: SegmentId, v: Variable)
    requires Consistent(next, segments)
  {
    exists path :: IsWalk(next, path) && path[0] == id && LeadsToRead(next, segments, path, v)
  }

  ghost predicate ReadBehind(next: seq<seq<SegmentId>>, segments: seq<Collected>, id: SegmentId, v: Variable)
    requires Consistent(next, segments) && id < |segments|
  {
    exists n :: n in next[id] && MayLeadToRead(next, segments, n, v)
  }

  /** Behind reference `k` of segment `id`, some path reads the variable before overwriting it. */
  ghost predicate MayBeRead(next: seq<seq<SegmentId>>, segments: seq<Collected>, id: SegmentId, k: nat, v: Variable)
    requires Consistent(next, segments) && id < |segments| && k < |segments[id].references|
  {
    ReadFirst(segments[id].references[k + 1..], v, ReadBehind(next, segments, id, v))
  }

  // ----- the solver's answer, on segments and references -----

  /** Gathers the summaries of the segments into the solver's input. */
  function ProblemOf(next: seq<seq<SegmentId>>, segments: seq<Collected>): Problem {
    Problem(next, seq(|segments|, i requires 0 <= i < |segments| => segments[i].gen),
            seq(|segments|, i requires 0 <= i < |segments| => segments[i].kill))
  }

  lemma {:induction false} WalkIsPath(next: seq<seq<SegmentId>>, segments: seq<Collected>, path: seq<SegmentId>,
                                      v: Variable)
    requires Consistent(next, segments)
    ensures var p := ProblemOf(next, segments);
      && p.Valid() && (IsWalk(next, path) <==> IsPath(p, path))
      && (IsWalk(next, path) ==> (LeadsToRead(next, segments, path, v) <==> CarriesTo(p, path, v)))
    decreases |path|
  {
    if |path| > 1 {
      WalkIsPath(next, segments, path[1..], v);
    }
  }

  lemma LivenessIsOnReferences(next: seq<seq<SegmentId>>, segments: seq<Collected>, id: SegmentId, v: Variable)
    requires Consistent(next, segments)
    ensures var p := ProblemOf(next, segments);
      p.Valid() && (MayLeadToRead(next, segments, id, v) <==> LiveAlongSomePath(p, id, v))
  {
    var p := ProblemOf(next, segments);
    WalkIsPath(next, segments, [], v);
    if path :| IsWalk(next, path) && path[0] == id && LeadsToRead(next, segments, path, v) {
      WalkIsPath(next, segments, path, v);
    }
    if path :| IsPath(p, path) && path[0] == id && CarriesTo(p, path, v) {
      WalkIsPath(next, segments, path, v);
    }
  }

  /** ESLint links segments both ways. */
  ghost predicate AreLinked(next: seq<seq<SegmentId>>, prev: seq<seq<SegmentId>>) {
    && |prev| == |next|
    && (forall id: nat, n: nat :: id < |next| && n < |prev| && n in next[id] ==> id in prev[n])
    && (forall n, k :: 0 <= n < |prev| && 0 <= k < |prev[n]| ==> prev[n][k] < |prev|)
  }

  /** The analysis at the end of the program: all stores reported, by segment and position. */
  method ReportDeadStores(next: seq<seq<SegmentId>>, prev: seq<seq<SegmentId>>, segments: seq<Collected>,
                          shouldReport: Reference -> bool) returns (reports: seq<seq<nat>>)
    requires Consistent(next, segments) && AreLinked(next, prev)
    ensures |reports| == |segments|
    ensures forall id: nat, k: nat :: id < |segments| && k < |segments[id].references| ==>
      var ref := segments[id].references[k];
      (k in reports[id] <==> ref.isWrite && shouldReport(ref) && !MayBeRead(next, segments, id, k, ref.resolved.value))
  {
    var p := ProblemOf(next, segments);
    assert p.Valid() && Linked(p, prev) by { WalkIsPath(next, segments, [], ""); }
    var liveIn, out := Lva(p, prev);
    reports := [];
    for id := 0 to |segments|
      invariant |reports| == id
      invariant forall i: nat, k: nat :: i < id && k < |segments[i].references| ==>
        (k in reports[i] <==> Reported(segments[i].references, k, out[i], shouldReport))
    {
      var found := CheckSegment(segments[id].references, out[id], shouldReport);
      reports := reports + [found];
    }
    forall id: nat, k: nat | id < |segments| && k < |segments[id].references|
      ensures var ref := segments[id].references[k];
              ref.resolved.Some? &&
              (Reported(segments[id].references, k, out[id], shouldReport)
               <==> ref.isWrite && shouldReport(ref) && !MayBeRead(next, segments, id, k, ref.resolved.value))
    {
      var ref := segments[id].references[k];
      assert ref in segments[id].references;
      OutIsLiveness(next, segments, liveIn, id, ref.resolved.value);
    }
  }

  lemma OutIsLiveness(next: seq<seq<SegmentId>>, segments: seq<Collected>, ins: LiveIn, id: SegmentId, v: Variable)
    requires Consistent(next, segments) && ProblemOf(next, segments).Valid()
    requires IsLeastSolution(ProblemOf(next, segments), ins) && id < |next|
    ensures v in Successors(ProblemOf(next, segments), ins, id) <==> ReadBehind(next, segments, id, v)
  {
    var p := ProblemOf(next, segments);
    forall n | n in next[id]
      ensures v in ins[n] <==> MayLeadToRead(next, segments, n, v)
    {
      LeastSolutionIsLiveness(p, ins, n, v);
      LivenessIsOnReferences(next, segments, n, v);
    }
  }

  // ----- a store that no path reads -----

  function Trace(segments: seq<Collected>, path: seq<SegmentId>): seq<Reference> {
    if path == [] then []
    else (if path[0] < |segments| then segments[path[0]].references else []) + Trace(segments, path[1..])
  }

  lemma {:induction false} ReadFirstAppend(a: seq<Reference>, b: seq<Reference>, v: Variable, after: bool)
    ensures ReadFirst(a + b, v, after) == ReadFirst(a, v, ReadFirst(b, v, after))
  {
    if a == [] {
      assert a + b == b;
    } else {
      assert (a + b)[1..] == a[1..] + b;
      ReadFirstAppend(a[1..], b, v, after);
    }
  }

  lemma {:induction false} ReadFirstCases(refs: seq<Reference>, v: Variable, after: bool)
    requires ReadFirst(refs, v, after)
    ensures v in ReadsOf(refs) || (after && v !in WritesOf(refs))
  {
    if refs != [] {
      assert refs[0] in refs;
      if refs[0].resolved != Some(v) || !refs[0].isRead {
        ReadFirstCases(refs[1..], v, after);
        assert forall r :: r in refs ==> r == refs[0] || r in refs[1..];
      }
    }
  }

  lemma {:induction false} ReadOnTraceLeadsToRead(next: seq<seq<SegmentId>>, segments: seq<Collected>,
                                                  path: seq<SegmentId>, v: Variable)
    requires Consistent(next, segments) && IsWalk(next, path) && ReadFirst(Trace(segments, path), v, false)
    ensures MayLeadToRead(next, segments, path[0], v)
    decreases |path|
  {
    var id := path[0];
    var refs := segments[id].references;
    ReadFirstAppend(refs, Trace(segments, path[1..]), v, false);
    ReadFirstCases(refs, v, ReadFirst(Trace(segments, path[1..]), v, false));
    if v in ReadsOf(refs) {
      assert IsWalk(next, [id]) && LeadsToRead(next, segments, [id], v);
    } else {
      ReadOnTraceLeadsToRead(next, segments, path[1..], v);
      var shorter :| IsWalk(next, shorter) && shorter[0] == path[1] && LeadsToRead(next, segments, shorter, v);
      var longer := [id] + shorter;
      assert longer[1..] == shorter;
      assert IsWalk(next, longer) && LeadsToRead(next, segments, longer, v);
    }
  }

  /** The references that follow position `k` of segment `id` when control goes on along `path`. */
  function Following(segments: seq<Collected>, id: SegmentId, k: nat, path: seq<SegmentId>): seq<Reference>
    requires id < |segments| && k < |segments[id].references|
  {
    segments[id].references[k + 1..] + Trace(segments, path)
  }

  ghost predicate Continues(next: seq<seq<SegmentId>>, segments: seq<Collected>, id: SegmentId, path: seq<SegmentId>)
    requires Consistent(next, segments) && id < |segments|
  {
    path == [] || (path[0] in next[id] && IsWalk(next, path))
  }

  /** On every continuation of a reported store, the variable is overwritten or the path ends before any read. */
  lemma {:induction false} ReportedStoreIsNeverRead(next: seq<seq<SegmentId>>, segments: seq<Collected>,
                                                    id: SegmentId, k: nat, path: seq<SegmentId>, v: Variable)
    requires Consistent(next, segments) && id < |segments| && k < |segments[id].references|
    requires !MayBeRead(next, segments, id, k, v) && Continues(next, segments, id, path)
    ensures !ReadFirst(Following(segments, id, k, path), v, false)
  {
    var rest := segments[id].references[k + 1..];
    ReadFirstAppend(rest, Trace(segments, path), v, false);
    var after := ReadBehind(next, segments, id, v);
    if ReadFirst(Trace(segments, path), v, false) {
      ReadOnTraceLeadsToRead(next, segments, path, v);
      assert after;
    }
    ReadFirstMonotone(rest, v, ReadFirst(Trace(segments, path), v, false), after);
  }

  lemma {:induction false} ReadFirstMonotone(refs: seq<Reference>, v: Variable, a: bool, b: bool)
    requires a ==> b
    ensures ReadFirst(refs, v, a) ==> ReadFirst(refs, v, b)
  {
    if refs != [] {
      ReadFirstMonotone(refs[1..], v, a, b);
    }
  }

  type Value = int
  type Store = map<Variable, Value>

  function Fetch(store: Store, v: Variable): Value {
    if v in store then store[v] else 0
  }

  /**
    The values read along a trace.  What a reference writes may depend on the reference and
    on every value read so far; a reference that reads and writes reads first.
  */
  function Observed(trace: seq<Reference>, store: Store, seen: seq<Value>,
                    compute: (Reference, seq<Value>) -> Value): seq<Value> {
    if trace == [] then seen
    else if trace[0].resolved.None? then Observed(trace[1..], store, seen, compute)
    else
      var v := trace[0].resolved.value;
      var seen' := if trace[0].isRead then seen + [Fetch(store, v)] else seen;
      var store' := if trace[0].isWrite then store[v := compute(trace[0], seen')] else store;
      Observed(trace[1..], store', seen', compute)
  }

  lemma {:induction false} UnreadValueIsUnobserved(trace: seq<Reference>, v: Variable, store: Store, x: Value, y: Value,
                                                   seen: seq<Value>, compute: (Reference, seq<Value>) -> Value)
    requires !ReadFirst(trace, v, false)
    ensures Observed(trace, store[v := x], seen, compute) == Observed(trace, store[v := y], seen, compute)
  {
    if trace != [] {
      if trace[0].resolved.None? {
        UnreadValueIsUnobserved(trace[1..], v, store, x, y, seen, compute);
      } else {
        var w := trace[0].resolved.value;
        var seen' := if trace[0].isRead then seen + [Fetch(store, w)] else seen;
        var z := compute(trace[0], seen');
        if w == v && trace[0].isWrite {
          assert store[v := x][v := z] == store[v := y][v := z];
        } else if trace[0].isWrite {
          assert store[v := x][w := z] == store[w := z][v := x];
          assert store[v := y][w := z] == store[w := z][v := y];
          UnreadValueIsUnobserved(trace[1..], v, store[w := z], x, y, seen', compute);
        } else {
          UnreadValueIsUnobserved(trace[1..], v, store, x, y, seen', compute);
        }
      }
    }
  }

  /**
    Replacing the value written by a reported store changes no value read on any continuation, in
    the order collected.
  */
  lemma ReportedStoreIsUseless(next: seq<seq<SegmentId>>, segments: seq<Collected>, id: SegmentId, k: nat,
                               path: seq<SegmentId>, v: Variable, store: Store, x: Value, y: Value,
                               seen: seq<Value>, compute: (Reference, seq<Value>) -> Value)
    requires Consistent(next, segments) && id < |segments| && k < |segments[id].references|
    requires !MayBeRead(next, segments, id, k, v) && Continues(next, segments, id, path)
    ensures Observed(Following(segments, id, k, path), store[v := x], seen, compute)
         == Observed(Following(segments, id, k, path), store[v := y], seen, compute)
  {
    ReportedStoreIsNeverRead(next, segments, id, k, path, v);
    UnreadValueIsUnobserved(Following(segments, id, k, path), v, store, x, y, seen, compute);
  }

  // ----- when a store left alone is really read -----

  /** The path goes through segments that do not write `v` to one whose first reference to `v` reads it. */
  ghost predicate ExposesAlong(next: seq<seq<SegmentId>>, segments: seq<Collected>, path: seq<SegmentId>, v: Variable)
    requires Consistent(next, segments) && IsWalk(next, path)
  {
    var refs := segments[path[0]].references;
    if |path| == 1 then ReadFirst(refs, v, false)
    else v !in WritesOf(refs) && ExposesAlong(next, segments, path[1..], v)
  }

  ghost predicate ExposedAlongSomePath(next: seq<seq<SegmentId>>, segments: seq<Collected>, id: SegmentId, v: Variable)
    requires Consistent(next, segments)
  {
    exists path :: IsWalk(next, path) && path[0] == id && ExposesAlong(next, segments, path, v)
  }

  ghost predicate ExposedBehind(next: seq<seq<SegmentId>>, segments: seq<Collected>, id: SegmentId, v: Variable)
    requires Consistent(next, segments) && id < |segments|
  {
    exists n :: n in next[id] && ExposedAlongSomePath(next, segments, n, v)
  }

  ghost predicate ReadOnSomePath(next: seq<seq<SegmentId>>, segments: seq<Collected>, id: SegmentId, k: nat,
                                 v: Variable)
    requires Consistent(next, segments) && id < |segments| && k < |segments[id].references|
  {
    exists path :: Continues(next, segments, id, path) && ReadFirst(Following(segments, id, k, path), v, false)
  }

  lemma {:induction false} UnwrittenPassesThrough(refs: seq<Reference>, v: Variable)
    requires v !in WritesOf(refs)
    ensures ReadFirst(refs, v, true)
  {
    if refs != [] {
      assert refs[0] in refs;
      assert forall r :: r in refs[1..] ==> r in refs;
      UnwrittenPassesThrough(refs[1..], v);
    }
  }

  /** What follows the references matters exactly when none of them accesses the variable. */
  lemma {:induction false} FollowingMatters(refs: seq<Reference>, v: Variable)
    ensures ReadFirst(refs, v, true) && !ReadFirst(refs, v, false) <==> v !in ReadsOf(refs) && v !in WritesOf(refs)
  {
    if refs != [] {
      FollowingMatters(refs[1..], v);
      assert forall r :: r in refs <==> r == refs[0] || r in refs[1..];
    }
  }

  lemma {:induction false} ExposingPathReads(next: seq<seq<SegmentId>>, segments: seq<Collected>,
                                             path: seq<SegmentId>, v: Variable)
    requires Consistent(next, segments)
    requires IsWalk(next, path) && ExposesAlong(next, segments, path, v)
    ensures ReadFirst(Trace(segments, path), v, false)
    decreases |path|
  {
    var refs, rest := segments[path[0]].references, Trace(segments, path[1..]);
    ReadFirstAppend(refs, rest, v, false);
    if |path| > 1 {
      ExposingPathReads(next, segments, path[1..], v);
      UnwrittenPassesThrough(refs, v);
    } else {
      assert rest == [];
    }
  }

  lemma {:induction false} ReadOnTraceIsExposed(next: seq<seq<SegmentId>>, segments: seq<Collected>,
                                                path: seq<SegmentId>, v: Variable)
    requires Consistent(next, segments)
    requires IsWalk(next, path) && ReadFirst(Trace(segments, path), v, false)
    ensures ExposedAlongSomePath(next, segments, path[0], v)
    decreases |path|
  {
    var id := path[0];
    var refs := segments[id].references;
    ReadFirstAppend(refs, Trace(segments, path[1..]), v, false);
    if ReadFirst(refs, v, false) {
      assert IsWalk(next, [id]) && ExposesAlong(next, segments, [id], v);
    } else {
      FollowingMatters(refs, v);
      ReadOnTraceIsExposed(next, segments, path[1..], v);
      var shorter :| IsWalk(next, shorter) && shorter[0] == path[1] && ExposesAlong(next, segments, shorter, v);
      var longer := [id] + shorter;
      assert longer[1..] == shorter;
      assert IsWalk(next, longer) && ExposesAlong(next, segments, longer, v);
    }
  }

  /** Exactly when some continuation reads what a store wrote. */
  lemma StoreIsReadExactly(next: seq<seq<SegmentId>>, segments: seq<Collected>, id: SegmentId, k: nat, v: Variable)
    requires Consistent(next, segments) && id < |segments| && k < |segments[id].references|
    ensures ReadOnSomePath(next, segments, id, k, v)
       <==> ReadFirst(segments[id].references[k + 1..], v, ExposedBehind(next, segments, id, v))
  {
    var rest, exposed := segments[id].references[k + 1..], ExposedBehind(next, segments, id, v);
    if ReadFirst(rest, v, exposed) {
      var path: seq<SegmentId> := [];
      if n :| n in next[id] && ExposedAlongSomePath(next, segments, n, v) {
        path :| IsWalk(next, path) && path[0] == n && ExposesAlong(next, segments, path, v);
        ExposingPathReads(next, segments, path, v);
      }
      ReadFirstAppend(rest, Trace(segments, path), v, false);
      assert Continues(next, segments, id, path);
    }
    if path :| Continues(next, segments, id, path) && ReadFirst(Following(segments, id, k, path), v, false) {
      ReadFirstAppend(rest, Trace(segments, path), v, false);
      var read := ReadFirst(Trace(segments, path), v, false);
      if read {
        ReadOnTraceIsExposed(next, segments, path, v);
      }
      ReadFirstMonotone(rest, v, read, exposed);
    }
  }

  /**
    A dead store is missed exactly when its segment does not access the variable again, some
    path comes to a segment that reads it, and every such segment overwrites it first.
  */
  lemma StoreIsMissedExactly(next: seq<seq<SegmentId>>, segments: seq<Collected>, id: SegmentId, k: nat, v: Variable)
    requires Consistent(next, segments) && id < |segments| && k < |segments[id].references|
    ensures MayBeRead(next, segments, id, k, v) && !ReadOnSomePath(next, segments, id, k, v)
       <==> var rest := segments[id].references[k + 1..];
            && v !in ReadsOf(rest) && v !in WritesOf(rest)
            && ReadBehind(next, segments, id, v)
            && !ExposedBehind(next, segments, id, v)
  {
    var rest := segments[id].references[k + 1..];
    StoreIsReadExactly(next, segments, id, k, v);
    FollowingMatters(rest, v);
    ReadFirstMonotone(rest, v, false, true);
  }

  /**
    The rule is not complete: a segment that overwrites a variable and then reads it counts
    as reading it first, so the store in segment 0 goes unreported although no path reads it.
  */
  lemma OverwriteThenReadHidesADeadStore(x: Variable)
    ensures var store, overwrite := Reference(0, Some(x), false, true), Reference(1, Some(x), false, true);
            var segments := [Collected({}, {x}, [store]),
                             Collected({x}, {x}, [overwrite, Reference(2, Some(x), true, false)])];
            var next := [[1], []];
            Consistent(next, segments) && MayBeRead(next, segments, 0, 0, x) && !ReadOnSomePath(next, segments, 0, 0, x)
  {
    var store, overwrite := Reference(0, Some(x), false, true), Reference(1, Some(x), false, true);
    var read := Reference(2, Some(x), true, false);
    var segments := [Collected({}, {x}, [store]), Collected({x}, {x}, [overwrite, read])];
    var next: seq<seq<SegmentId>> := [[1], []];
    assert segments[0].references == [store] && segments[1].references == [overwrite, read];
    assert store in [store] && overwrite in [overwrite, read] && read in [overwrite, read];
    assert segments[0].Valid() && segments[1].Valid();
    assert IsWalk(next, [1]) && LeadsToRead(next, segments, [1], x);
    assert 1 in next[0] && MayLeadToRead(next, segments, 1, x);
    assert [store][1..] == [];
    assert !ExposedAlongSomePath(next, segments, 1, x);
    StoreIsMissedExactly(next, segments, 0, 0, x);
  }
}
