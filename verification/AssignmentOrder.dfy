/**
  The order in which the dead store rule hands references to the current segment: the
  visitor meets the left-hand side of an assignment first, and the references are flushed
  when it leaves the assignment, those of the right-hand side first.  How far this is the
  order of evaluation is the subject of `EvaluationOrder`.  A node is identified by its
  position in the tree, a reference by the position of its identifier.
*/
module AssignmentOrder {
  type Position = seq<nat>

  datatype Syntax =
    | Identifier
    | Assignment(left: Syntax, right: Syntax)  // AssignmentExpression, or VariableDeclarator with an initializer
    | Other(children: seq<Syntax>)

  datatype Side = Left | Right | Neither

  datatype AssignmentContext = AssignmentContext(node: Position, lhs: seq<Position>, rhs: seq<Position>)

  /** The side of the assignment at `node` under which `ref` lies. */
  function SideOf(node: Position, ref: Position): Side {
    if node + [0] <= ref then Left else if node + [1] <= ref then Right else Neither
  }

  /** Insertion into an insertion-ordered set. */
  function Insert(refs: seq<Position>, ref: Position): seq<Position> {
    if ref in refs then refs else refs + [ref]
  }

  /** Walks up from the identifier until it meets a side of the assignment. */
  method FindSide(node: Position, ref: Position) returns (side: Side)
    ensures side == SideOf(node, ref)
  {
    var parent := ref;
    side := Neither;
    while true
      invariant parent <= ref
      invariant forall above :: above <= ref && |above| > |parent| ==> above != node + [0] && above != node + [1]
      decreases |parent|
    {
      if parent == node + [0] {
        assert (node + [0])[|node|] == ref[|node|];
        return Left;
      }
      if parent == node + [1] {
        assert (node + [1])[|node|] == ref[|node|];
        return Right;
      }
      if parent == [] {
        return;
      }
      assert forall above :: above <= ref && |above| == |parent| ==> above == parent;
      parent := parent[..|parent| - 1];
    }
  }

  // ----- what is flushed -----

  /** The references under `t` in the order in which they are flushed. */
  function Flush(t: Syntax, at: Position): seq<Position>
    decreases t, 0
  {
    match t
    case Identifier => [at]
    case Assignment(left, right) => Flush(right, at + [1]) + Flush(left, at + [0])
    case Other(children) => FlushFrom(children, at, 0)
  }

  function FlushFrom(children: seq<Syntax>, at: Position, k: nat): seq<Position>
    decreases children, |children| - k
  {
    if k >= |children| then [] else Flush(children[k], at + [k]) + FlushFrom(children, at, k + 1)
  }

  /** The references under `t` in the order in which the visitor meets them. */
  function Seen(t: Syntax, at: Position): seq<Position>
    decreases t, 0
  {
    match t
    case Identifier => [at]
    case Assignment(left, right) => Seen(left, at + [0]) + Seen(right, at + [1])
    case Other(children) => SeenFrom(children, at, 0)
  }

  function SeenFrom(children: seq<Syntax>, at: Position, k: nat): seq<Position>
    decreases children, |children| - k
  {
    if k >= |children| then [] else Seen(children[k], at + [k]) + SeenFrom(children, at, k + 1)
  }

  ghost predicate Under(refs: seq<Position>, at: Position) {
    forall i :: 0 <= i < |refs| ==> at <= refs[i]
  }

  /** Under some child of `at` from the `k`-th on. */
  ghost predicate UnderFrom(refs: seq<Position>, at: Position, k: nat) {
    forall i :: 0 <= i < |refs| ==> at <= refs[i] && |at| < |refs[i]| && k <= refs[i][|at|]
  }

  lemma {:induction false} FlushIsUnder(t: Syntax, at: Position)
    ensures Under(Flush(t, at), at)
    decreases t, 0
  {
    match t
    case Identifier =>
    case Assignment(left, right) =>
      FlushIsUnder(right, at + [1]);
      FlushIsUnder(left, at + [0]);
    case Other(children) => FlushFromIsUnder(children, at, 0);
  }

  lemma {:induction false} FlushFromIsUnder(children: seq<Syntax>, at: Position, k: nat)
    ensures UnderFrom(FlushFrom(children, at, k), at, k)
    decreases children, |children| - k
  {
    if k < |children| {
      FlushIsUnder(children[k], at + [k]);
      var head := Flush(children[k], at + [k]);
      forall i | 0 <= i < |head|
        ensures at <= head[i] && |at| < |head[i]| && head[i][|at|] == k
      {
        assert (at + [k])[|at|] == head[i][|at|];
      }
      FlushFromIsUnder(children, at, k + 1);
    }
  }

  /** Flushing loses nothing, adds nothing and repeats nothing. */
  lemma {:induction false} FlushedExactlyOnce(t: Syntax, at: Position)
    ensures multiset(Flush(t, at)) == multiset(Seen(t, at))
    ensures forall i, j :: 0 <= i < j < |Flush(t, at)| ==> Flush(t, at)[i] != Flush(t, at)[j]
    decreases t, 0
  {
    match t
    case Identifier =>
    case Assignment(left, right) =>
      FlushedExactlyOnce(left, at + [0]);
      FlushedExactlyOnce(right, at + [1]);
      FlushIsUnder(left, at + [0]);
      FlushIsUnder(right, at + [1]);
      SidesAreApart(Flush(right, at + [1]), Flush(left, at + [0]), at);
    case Other(children) => FlushedExactlyOnceFrom(children, at, 0);
  }

  lemma SidesAreApart(rhs: seq<Position>, lhs: seq<Position>, at: Position)
    requires Under(rhs, at + [1]) && Under(lhs, at + [0])
    ensures forall i, j :: 0 <= i < |rhs| && 0 <= j < |lhs| ==> rhs[i] != lhs[j]
  {
    forall i, j | 0 <= i < |rhs| && 0 <= j < |lhs|
      ensures rhs[i] != lhs[j]
    {
      assert rhs[i][|at|] == (at + [1])[|at|] && lhs[j][|at|] == (at + [0])[|at|];
    }
  }

  lemma {:induction false} FlushedExactlyOnceFrom(children: seq<Syntax>, at: Position, k: nat)
    ensures multiset(FlushFrom(children, at, k)) == multiset(SeenFrom(children, at, k))
    ensures forall i, j :: 0 <= i < j < |FlushFrom(children, at, k)| ==>
      FlushFrom(children, at, k)[i] != FlushFrom(children, at, k)[j]
    decreases children, |children| - k
  {
    if k < |children| {
      FlushedExactlyOnce(children[k], at + [k]);
      FlushedExactlyOnceFrom(children, at, k + 1);
      var head, rest := Flush(children[k], at + [k]), FlushFrom(children, at, k + 1);
      FlushIsUnder(children[k], at + [k]);
      FlushFromIsUnder(children, at, k + 1);
      forall i, j | 0 <= i < |head| && 0 <= j < |rest|
        ensures head[i] != rest[j]
      {
        assert head[i][|at|] == (at + [k])[|at|] && k + 1 <= rest[j][|at|];
      }
      assert FlushFrom(children, at, k) == head + rest;
    }
  }

  /** There is an assignment at position `node` of the tree `t` that sits at `at`. */
  predicate IsAssignmentAt(t: Syntax, at: Position, node: Position)
    decreases t
  {
    match t
    case Identifier => false
    case Assignment(left, right) =>
      node == at || IsAssignmentAt(left, at + [0], node) || IsAssignmentAt(right, at + [1], node)
    case Other(children) => exists k: nat :: k < |children| && IsAssignmentAt(children[k], at + [k], node)
  }

  ghost predicate RightFirst(refs: seq<Position>, node: Position) {
    forall i, j :: 0 <= i < |refs| && 0 <= j < |refs| && node + [1] <= refs[i] && node + [0] <= refs[j] ==> i < j
  }

  lemma {:induction false} AssignmentIsUnder(t: Syntax, at: Position, node: Position)
    requires IsAssignmentAt(t, at, node)
    ensures at <= node
  {
    match t
    case Identifier =>
    case Assignment(left, right) =>
      if IsAssignmentAt(left, at + [0], node) {
        AssignmentIsUnder(left, at + [0], node);
      } else if IsAssignmentAt(right, at + [1], node) {
        AssignmentIsUnder(right, at + [1], node);
      }
    case Other(children) =>
      var k: nat :| k < |children| && IsAssignmentAt(children[k], at + [k], node);
      AssignmentIsUnder(children[k], at + [k], node);
  }

  /** References that do not lie under `node` on either side of the others change nothing about their order. */
  lemma RightFirstWithin(before: seq<Position>, refs: seq<Position>, behind: seq<Position>, node: Position)
    requires RightFirst(refs, node)
    requires forall i :: 0 <= i < |before| ==> !(node <= before[i])
    requires forall i :: 0 <= i < |behind| ==> !(node <= behind[i])
    ensures RightFirst(before + refs + behind, node)
  {
    var all := before + refs + behind;
    forall i, j | 0 <= i < |all| && 0 <= j < |all| && node + [1] <= all[i] && node + [0] <= all[j]
      ensures i < j
    {
      assert node <= all[i] && node <= all[j];
      assert |before| <= i < |before| + |refs| && |before| <= j < |before| + |refs|;
      assert all[i] == refs[i - |before|] && all[j] == refs[j - |before|];
    }
  }

  lemma Apart(refs: seq<Position>, at: Position, k: nat, node: Position)
    requires at + [k] <= node
    requires forall i :: 0 <= i < |refs| ==> |at| < |refs[i]| && refs[i][|at|] != k
    ensures forall i :: 0 <= i < |refs| ==> !(node <= refs[i])
  {
    assert (at + [k])[|at|] == node[|at|];
  }

  lemma UnderOther(refs: seq<Position>, at: Position, k: nat)
    requires Under(refs, at + [k])
    ensures forall i :: 0 <= i < |refs| ==> at <= refs[i] && |at| < |refs[i]| && refs[i][|at|] == k
  {
    assert (at + [k])[|at|] == k;
  }

  /** At every nesting depth, the right-hand references come before the left-hand references of the same assignment. */
  lemma {:induction false} RightHandSideFirst(t: Syntax, at: Position, node: Position)
    requires IsAssignmentAt(t, at, node)
    ensures RightFirst(Flush(t, at), node)
    decreases t, 0
  {
    AssignmentIsUnder(t, at, node);
    match t
    case Identifier =>
    case Assignment(left, right) =>
      var rhs, lhs := Flush(right, at + [1]), Flush(left, at + [0]);
      FlushIsUnder(right, at + [1]);
      FlushIsUnder(left, at + [0]);
      UnderOther(rhs, at, 1);
      UnderOther(lhs, at, 0);
      if IsAssignmentAt(left, at + [0], node) {
        AssignmentIsUnder(left, at + [0], node);
        RightHandSideFirst(left, at + [0], node);
        Apart(rhs, at, 0, node);
        RightFirstWithin(rhs, lhs, [], node);
        assert rhs + lhs + [] == rhs + lhs;
      } else if IsAssignmentAt(right, at + [1], node) {
        AssignmentIsUnder(right, at + [1], node);
        RightHandSideFirst(right, at + [1], node);
        Apart(lhs, at, 1, node);
        RightFirstWithin([], rhs, lhs, node);
        assert [] + rhs + lhs == rhs + lhs;
      } else {
        forall i, j | 0 <= i < |rhs + lhs| && 0 <= j < |rhs + lhs| && node + [1] <= (rhs + lhs)[i]
          && node + [0] <= (rhs + lhs)[j]
          ensures i < j
        {
          assert (rhs + lhs)[i][|at|] == 1 by { assert (node + [1])[|at|] == 1; }
          assert (rhs + lhs)[j][|at|] == 0 by { assert (node + [0])[|at|] == 0; }
        }
      }
    case Other(children) =>
      var k: nat :| k < |children| && IsAssignmentAt(children[k], at + [k], node);
      RightHandSideFirstFrom(children, at, 0, k, node);
  }

  lemma {:induction false} RightHandSideFirstFrom(children: seq<Syntax>, at: Position, i: nat, k: nat, node: Position)
    requires i <= k < |children| && IsAssignmentAt(children[k], at + [k], node)
    ensures RightFirst(FlushFrom(children, at, i), node)
    decreases children, |children| - i
  {
    var head, rest := Flush(children[i], at + [i]), FlushFrom(children, at, i + 1);
    AssignmentIsUnder(children[k], at + [k], node);
    if i < k {
      FlushIsUnder(children[i], at + [i]);
      UnderOther(head, at, i);
      Apart(head, at, k, node);
      RightHandSideFirstFrom(children, at, i + 1, k, node);
      RightFirstWithin(head, rest, [], node);
      assert head + rest + [] == head + rest;
    } else {
      RightHandSideFirst(children[k], at + [k], node);
      FlushFromIsUnder(children, at, k + 1);
      Apart(rest, at, k, node);
      RightFirstWithin([], head, rest, node);
      assert [] + head + rest == head + rest;
    }
  }

  // ----- the visitor -----

  /** One code path: its stack of open assignments and the references of its current segment. */
  datatype State = State(assignmentStack: seq<AssignmentContext>, segment: seq<Position>)

  function Top(s: State): AssignmentContext
    requires s.assignmentStack != []
  {
    s.assignmentStack[|s.assignmentStack| - 1]
  }

  function WithTop(s: State, top: AssignmentContext): State
    requires s.assignmentStack != []
  {
    s.(assignmentStack := s.assignmentStack[|s.assignmentStack| - 1 := top])
  }

  /** A reference at `at` finds its side of the innermost open assignment, if there is one. */
  predicate Accepts(s: State, at: Position) {
    s.assignmentStack != [] ==> !SideOf(Top(s).node, at).Neither?
  }

  /** The list that references at and below `at` go to. */
  function Target(s: State, at: Position): seq<Position>
    requires Accepts(s, at)
  {
    if s.assignmentStack == [] then s.segment
    else if SideOf(Top(s).node, at).Left? then Top(s).lhs
    else Top(s).rhs
  }

  function Retarget(s: State, at: Position, refs: seq<Position>): State
    requires Accepts(s, at)
  {
    if s.assignmentStack == [] then s.(segment := refs)
    else if SideOf(Top(s).node, at).Left? then WithTop(s, Top(s).(lhs := refs))
    else WithTop(s, Top(s).(rhs := refs))
  }

  /** `s` with `refs` appended where references under `at` go, and nothing else changed. */
  function Append(s: State, at: Position, refs: seq<Position>): State
    requires Accepts(s, at)
  {
    Retarget(s, at, Target(s, at) + refs)
  }

  lemma SameSideBelow(node: Position, at: Position, below: Position)
    requires at <= below && !SideOf(node, at).Neither?
    ensures SideOf(node, below) == SideOf(node, at)
  {
    if node + [1] <= at {
      assert (node + [1])[|node|] == below[|node|];
    }
  }

  lemma AppendBelow(s: State, at: Position, below: Position, refs: seq<Position>)
    requires Accepts(s, at) && at <= below
    ensures Accepts(s, below) && Target(s, below) == Target(s, at) && Append(s, below, refs) == Append(s, at, refs)
  {
    if s.assignmentStack != [] {
      SameSideBelow(Top(s).node, at, below);
    }
  }

  lemma AppendTwice(s: State, at: Position, a: seq<Position>, b: seq<Position>)
    requires Accepts(s, at)
    ensures Accepts(Append(s, at, a), at) && Target(Append(s, at, a), at) == Target(s, at) + a
    ensures Append(Append(s, at, a), at, b) == Append(s, at, a + b)
  {
    assert Target(s, at) + a + b == Target(s, at) + (a + b);
  }

  ghost predicate NoneUnder(refs: seq<Position>, at: Position) {
    forall i :: 0 <= i < |refs| ==> !(at <= refs[i])
  }

  class CodePathContext {
    var state: State

    constructor ()
      ensures state == State([], [])
    {
      state := State([], []);
    }

    method PushAssignmentContext(node: Position)
      modifies this
      ensures state == old(state).(assignmentStack := old(state).assignmentStack + [AssignmentContext(node, [], [])])
    {
      state := state.(assignmentStack := state.assignmentStack + [AssignmentContext(node, [], [])]);
    }

    /** Pops the innermost assignment and processes its right-hand references, then its left-hand ones. */
    method PopAssignmentContext(ghost at: Position) returns (ok: bool)
      requires state.assignmentStack != []
      requires var outer := state.(assignmentStack := state.assignmentStack[..|state.assignmentStack| - 1]);
               var refs := Top(state).rhs + Top(state).lhs;
               && Accepts(outer, at) && Under(refs, at) && NoneUnder(Target(outer, at), at)
               && forall i, j :: 0 <= i < j < |refs| ==> refs[i] != refs[j]
      modifies this
      ensures ok
      ensures
        var outer := old(state.(assignmentStack := state.assignmentStack[..|state.assignmentStack| - 1]));
        state == Append(outer, at, old(Top(state)).rhs + old(Top(state)).lhs)
    {
      var assignment := Top(state);
      state := state.(assignmentStack := state.assignmentStack[..|state.assignmentStack| - 1]);
      ghost var outer := state;
      ok := ProcessAll(assignment.rhs, at, [], assignment.rhs + assignment.lhs);
      AppendTwice(outer, at, assignment.rhs, assignment.lhs);
      var rest := ProcessAll(assignment.lhs, at, assignment.rhs, assignment.rhs + assignment.lhs);
      ok := ok && rest;
    }

    /** Processes `refs` in order, `done` being those among `all` that were processed before. */
    method ProcessAll(refs: seq<Position>, ghost at: Position, ghost done: seq<Position>, ghost all: seq<Position>)
      returns (ok: bool)
      requires Accepts(state, at) && done + refs <= all && Under(all, at)
      requires exists old' :: NoneUnder(old', at) && Target(state, at) == old' + done
      requires forall i, j :: 0 <= i < j < |all| ==> all[i] != all[j]
      modifies this
      ensures ok && state == Append(old(state), at, refs)
    {
      ghost var old' :| NoneUnder(old', at) && Target(state, at) == old' + done;
      ok := true;
      assert Append(state, at, []) == state by { assert Target(state, at) + [] == Target(state, at); }
      for i := 0 to |refs|
        invariant ok && state == Append(old(state), at, refs[..i])
      {
        ghost var before := old(state);
        AppendTwice(before, at, refs[..i], [refs[i]]);
        assert refs[i] == all[|done| + i];
        AppendBelow(state, at, refs[i], [refs[i]]);
        NotYetThere(refs, i, at, done, all, old');
        var one := ProcessReference(refs[i]);
        ok := ok && one;
        assert refs[..i + 1] == refs[..i] + [refs[i]];
      }
      assert refs[..|refs|] == refs;
    }

    /** Fails, where the rule throws an error, when the reference is on neither side of the innermost assignment. */
    method ProcessReference(ref: Position) returns (ok: bool)
      modifies this
      ensures ok == Accepts(old(state), ref)
      ensures state == if ok then Retarget(old(state), ref, Insert(Target(old(state), ref), ref)) else old(state)
    {
      ok := true;
      if |state.assignmentStack| > 0 {
        var top := Top(state);
        var side := FindSide(top.node, ref);
        match side {
          case Left => state := WithTop(state, top.(lhs := Insert(top.lhs, ref)));
          case Right => state := WithTop(state, top.(rhs := Insert(top.rhs, ref)));
          case Neither => ok := false;
        }
      } else {
        state := state.(segment := Insert(state.segment, ref));
      }
    }

    /** The visit of a subtree: it never throws and flushes its references. */
    method Visit(t: Syntax, at: Position) returns (ok: bool)
      requires Accepts(state, at) && NoneUnder(Target(state, at), at)
      modifies this
      ensures ok && state == Append(old(state), at, Flush(t, at))
      decreases t
    {
      match t {
        case Identifier =>
          ok := ProcessReference(at);
        case Assignment(left, right) =>
          ghost var outer := state;
          PushAssignmentContext(at);
          OwnSides(at);
          ok := Visit(left, at + [0]);
          var rhsOk := Visit(right, at + [1]);
          assert Top(state) == AssignmentContext(at, Flush(left, at + [0]), Flush(right, at + [1]));
          assert state.(assignmentStack := state.assignmentStack[..|state.assignmentStack| - 1]) == outer;
          FlushIsUnder(t, at);
          FlushedExactlyOnce(t, at);
          var popOk := PopAssignmentContext(at);
          ok := ok && rhsOk && popOk;
        case Other(children) =>
          ok := VisitChildren(children, at);
      }
    }

    method VisitChildren(children: seq<Syntax>, at: Position) returns (ok: bool)
      requires Accepts(state, at) && NoneUnder(Target(state, at), at)
      modifies this
      ensures ok && state == Append(old(state), at, FlushFrom(children, at, 0))
      decreases children
    {
      ok := true;
      ghost var before, refs := state, [];
      assert Append(before, at, []) == before by { assert Target(before, at) + [] == Target(before, at); }
      for k := 0 to |children|
        invariant ok && state == Append(before, at, refs)
        invariant refs + FlushFrom(children, at, k) == FlushFrom(children, at, 0)
        invariant forall i :: 0 <= i < |refs| ==> |at| < |refs[i]| && refs[i][|at|] < k
      {
        var child := at + [k];
        ghost var head := Flush(children[k], child);
        AppendTwice(before, at, refs, head);
        AppendBelow(state, at, child, head);
        assert NoneUnder(Target(state, child), child) by {
          Apart(refs, at, k, child);
        }
        var one := Visit(children[k], child);
        ok := ok && one;
        FlushIsUnder(children[k], child);
        UnderOther(head, at, k);
        assert refs + head + FlushFrom(children, at, k + 1) == refs + (head + FlushFrom(children, at, k + 1));
        refs := refs + head;
      }
      assert refs + [] == refs;
    }
  }

  lemma OwnSides(at: Position)
    ensures SideOf(at, at + [0]) == Left && SideOf(at, at + [1]) == Right
  {
    assert (at + [0])[|at|] != (at + [1])[|at|];
  }

  lemma NotYetThere(refs: seq<Position>, i: nat, at: Position, done: seq<Position>, all: seq<Position>,
                    old': seq<Position>)
    requires i < |refs| && done + refs <= all && Under(all, at) && NoneUnder(old', at)
    requires forall j, k :: 0 <= j < k < |all| ==> all[j] != all[k]
    ensures refs[i] !in old' + done + refs[..i]
  {
    var n := |done| + i;
    assert refs[i] == all[n] && at <= all[n];
    assert forall j :: 0 <= j < |done| ==> done[j] == all[j];
    assert forall j :: 0 <= j < i ==> refs[j] == all[|done| + j];
  }

  /** A whole code path, visited from an empty stack: what its segment receives is what is flushed. */
  method VisitCodePath(t: Syntax) returns (segment: seq<Position>)
    ensures segment == Flush(t, [])
    ensures multiset(segment) == multiset(Seen(t, []))
    ensures forall node :: IsAssignmentAt(t, [], node) ==> RightFirst(segment, node)
  {
    var context := new CodePathContext();
    var ok := context.Visit(t, []);
    segment := context.state.segment;
    assert segment == [] + Flush(t, []);
    FlushedExactlyOnce(t, []);
    forall node | IsAssignmentAt(t, [], node)
      ensures RightFirst(segment, node)
    {
      RightHandSideFirst(t, [], node);
    }
  }
}
