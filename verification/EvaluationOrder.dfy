/**
  What the verdicts of the dead store rule are worth in executions.  The rule collects the
  references of an assignment when it leaves it, the right-hand side first; section 13.15.2
  of ECMA-262 (14th edition) evaluates the sub-expressions of a member target, and reads
  the target of a compound assignment, before the right-hand side.
*/
module EvaluationOrder {
  import opened Wrappers
  import opened LiveVariablesAnalysis
  import opened DeadStores
  import A = AssignmentOrder

  /**
    The code of one segment.  An identifier that is not resolved is `Nothing`; a node with
    several operands, a member expression among them, is a chain of `Then`.  A branch outside
    all assignments starts segments of its own; one inside an assignment is part of the
    segment in which the assignment ends, as the segments in between collect nothing.
  */
  datatype Expr =
    | Nothing
    | Use(ref: Reference)
    | Then(first: Expr, second: Expr)
    | Assign(left: Expr, right: Expr)     // AssignmentExpression, or VariableDeclarator with an initializer
    | Pattern(elements: Expr)             // ObjectPattern, ArrayPattern
    | Default(target: Expr, value: Expr)  // AssignmentPattern
    | Branch(test: Expr, consequent: Expr, alternate: Expr)  // ConditionalExpression, LogicalExpression

  /** The references as the rule collects them. */
  function CollectedRefs(e: Expr): seq<Reference> {
    match e
    case Nothing => []
    case Use(ref) => [ref]
    case Then(first, second) => CollectedRefs(first) + CollectedRefs(second)
    case Assign(left, right) => CollectedRefs(right) + CollectedRefs(left)
    case Pattern(elements) => CollectedRefs(elements)
    case Default(target, value) => CollectedRefs(target) + CollectedRefs(value)
    case Branch(test, consequent, alternate) =>
      CollectedRefs(test) + (CollectedRefs(consequent) + CollectedRefs(alternate))
  }

  // ----- the collected references are those that the visitor flushes -----

  function Shape(e: Expr): A.Syntax {
    match e
    case Nothing => A.Other([])
    case Use(_) => A.Identifier
    case Then(first, second) => A.Other([Shape(first), Shape(second)])
    case Assign(left, right) => A.Assignment(Shape(left), Shape(right))
    case Pattern(elements) => A.Other([Shape(elements)])
    case Default(target, value) => A.Other([Shape(target), Shape(value)])
    case Branch(test, consequent, alternate) => A.Other([Shape(test), Shape(consequent), Shape(alternate)])
  }

  function Children(e: Expr): seq<Expr> {
    match e
    case Nothing => []
    case Use(_) => []
    case Then(first, second) => [first, second]
    case Assign(left, right) => [left, right]
    case Pattern(elements) => [elements]
    case Default(target, value) => [target, value]
    case Branch(test, consequent, alternate) => [test, consequent, alternate]
  }

  function RefAt(e: Expr, path: A.Position): Option<Reference>
    decreases |path|
  {
    if path == [] then if e.Use? then Some(e.ref) else None
    else if path[0] < |Children(e)| then RefAt(Children(e)[path[0]], path[1..])
    else None
  }

  /** `refs` are the references of `e` at the positions `flushed`, seen from `at`. */
  ghost predicate AreAt(e: Expr, at: A.Position, refs: seq<Reference>, flushed: seq<A.Position>) {
    && |refs| == |flushed|
    && forall i :: 0 <= i < |refs| ==> at <= flushed[i] && RefAt(e, flushed[i][|at|..]) == Some(refs[i])
  }

  lemma ChildrenAreAt(e: Expr, at: A.Position, k: nat, refs: seq<Reference>, flushed: seq<A.Position>)
    requires k < |Children(e)| && AreAt(Children(e)[k], at + [k], refs, flushed)
    ensures AreAt(e, at, refs, flushed)
  {
    forall i | 0 <= i < |refs|
      ensures at <= flushed[i] && RefAt(e, flushed[i][|at|..]) == Some(refs[i])
    {
      var path := flushed[i][|at|..];
      assert flushed[i][|at|] == (at + [k])[|at|];
      assert path[1..] == flushed[i][|at + [k]|..];
    }
  }

  lemma TogetherAreAt(e: Expr, at: A.Position, a: seq<Reference>, b: seq<Reference>, f: seq<A.Position>,
                      g: seq<A.Position>)
    requires AreAt(e, at, a, f) && AreAt(e, at, b, g)
    ensures AreAt(e, at, a + b, f + g)
  {
  }

  /** For two children, in either order. */
  lemma PairIsAt(e: Expr, at: A.Position, x: Expr, y: Expr)
    requires Children(e) == [x, y]
    requires AreAt(x, at + [0], CollectedRefs(x), A.Flush(Shape(x), at + [0]))
    requires AreAt(y, at + [1], CollectedRefs(y), A.Flush(Shape(y), at + [1]))
    ensures AreAt(e, at, CollectedRefs(x) + CollectedRefs(y), A.Flush(Shape(x), at + [0]) + A.Flush(Shape(y), at + [1]))
    ensures AreAt(e, at, CollectedRefs(y) + CollectedRefs(x), A.Flush(Shape(y), at + [1]) + A.Flush(Shape(x), at + [0]))
  {
    var a, b, f, g := CollectedRefs(x), CollectedRefs(y), A.Flush(Shape(x), at + [0]), A.Flush(Shape(y), at + [1]);
    ChildrenAreAt(e, at, 0, a, f);
    ChildrenAreAt(e, at, 1, b, g);
    TogetherAreAt(e, at, a, b, f, g);
    TogetherAreAt(e, at, b, a, g, f);
  }

  /** What the rule collects are the references at the positions that the visitor flushes, in this order. */
  lemma {:induction false} CollectedIsFlushed(e: Expr, at: A.Position)
    ensures AreAt(e, at, CollectedRefs(e), A.Flush(Shape(e), at))
    decreases e, 1
  {
    match e
    case Nothing =>
    case Use(ref) => assert at[|at|..] == [];
    case Then(first, second) =>
      CollectedIsFlushed(first, at + [0]);
      CollectedIsFlushed(second, at + [1]);
      PairIsAt(e, at, first, second);
      FlushTwo(Shape(first), Shape(second), at);
    case Assign(left, right) =>
      CollectedIsFlushed(left, at + [0]);
      CollectedIsFlushed(right, at + [1]);
      PairIsAt(e, at, left, right);
    case Pattern(elements) =>
      CollectedIsFlushed(elements, at + [0]);
      ChildrenAreAt(e, at, 0, CollectedRefs(elements), A.Flush(Shape(elements), at + [0]));
      assert A.FlushFrom([Shape(elements)], at, 0) == A.Flush(Shape(elements), at + [0])
        + A.FlushFrom([Shape(elements)], at, 1);
    case Default(target, value) =>
      CollectedIsFlushed(target, at + [0]);
      CollectedIsFlushed(value, at + [1]);
      PairIsAt(e, at, target, value);
      FlushTwo(Shape(target), Shape(value), at);
    case Branch(_, _, _) => BranchIsFlushed(e, at);
  }

  lemma {:induction false} BranchIsFlushed(e: Expr, at: A.Position)
    requires e.Branch?
    ensures AreAt(e, at, CollectedRefs(e), A.Flush(Shape(e), at))
    decreases e, 0
  {
    var t, c, a := CollectedRefs(e.test), CollectedRefs(e.consequent), CollectedRefs(e.alternate);
    var f, g, h := A.Flush(Shape(e.test), at + [0]), A.Flush(Shape(e.consequent), at + [1]),
        A.Flush(Shape(e.alternate), at + [2]);
    CollectedIsFlushed(e.test, at + [0]);
    CollectedIsFlushed(e.consequent, at + [1]);
    CollectedIsFlushed(e.alternate, at + [2]);
    ChildrenAreAt(e, at, 0, t, f);
    ChildrenAreAt(e, at, 1, c, g);
    ChildrenAreAt(e, at, 2, a, h);
    TogetherAreAt(e, at, c, a, g, h);
    TogetherAreAt(e, at, t, c + a, f, g + h);
    FlushThree(Shape(e.test), Shape(e.consequent), Shape(e.alternate), at);
  }

  lemma FlushTwo(a: A.Syntax, b: A.Syntax, at: A.Position)
    ensures A.Flush(A.Other([a, b]), at) == A.Flush(a, at + [0]) + A.Flush(b, at + [1])
  {
    assert A.FlushFrom([a, b], at, 1) == A.Flush(b, at + [1]) + A.FlushFrom([a, b], at, 2);
  }

  lemma FlushThree(a: A.Syntax, b: A.Syntax, c: A.Syntax, at: A.Position)
    ensures A.Flush(A.Other([a, b, c]), at) == A.Flush(a, at + [0]) + (A.Flush(b, at + [1]) + A.Flush(c, at + [2]))
  {
    assert A.FlushFrom([a, b, c], at, 2) == A.Flush(c, at + [2]) + A.FlushFrom([a, b, c], at, 3);
    assert A.FlushFrom([a, b, c], at, 1) == A.Flush(b, at + [1]) + A.FlushFrom([a, b, c], at, 2);
  }

  // ----- evaluation -----

  predicate IsCompound(left: Expr) {
    left.Use? && left.ref.isRead && left.ref.isWrite
  }

  /** Targets that only take a value; any other target has sub-expressions, which are evaluated first. */
  predicate IsBinding(target: Expr) {
    target.Use? || target.Pattern?
  }

  function ReadOf(ref: Reference): Reference {
    ref.(isWrite := false)
  }

  function WriteOf(ref: Reference): Reference {
    ref.(isRead := false)
  }

  /** The accesses of one reference: a reference that reads and writes reads first. */
  function Accesses(ref: Reference): seq<Reference> {
    if ref.isRead && ref.isWrite then [ReadOf(ref), WriteOf(ref)] else [ref]
  }

  /** The accesses of an assignment, from those of its sides. */
  function AssignmentRun(left: Expr, lhs: seq<Reference>, rhs: seq<Reference>): seq<Reference> {
    if IsCompound(left) then [ReadOf(left.ref)] + rhs + [WriteOf(left.ref)]
    else if IsBinding(left) then rhs + lhs
    else lhs + rhs
  }

  /** The accesses of a target with a default value. */
  function DefaultRun(target: Expr, lhs: seq<Reference>, needed: seq<Reference>): seq<Reference> {
    if IsBinding(target) then needed + lhs else lhs + needed
  }

  /** The accesses in the order of evaluation; `takes` tells which consequents and default values are evaluated. */
  function Evaluated(e: Expr, takes: Expr -> bool): seq<Reference> {
    match e
    case Nothing => []
    case Use(ref) => Accesses(ref)
    case Then(first, second) => Evaluated(first, takes) + Evaluated(second, takes)
    case Assign(left, right) => AssignmentRun(left, Evaluated(left, takes), Evaluated(right, takes))
    case Pattern(elements) => Evaluated(elements, takes)
    case Default(target, value) =>
      var needed := if takes(e) then Evaluated(value, takes) else [];
      DefaultRun(target, Evaluated(target, takes), needed)
    case Branch(test, consequent, alternate) =>
      Evaluated(test, takes) + if takes(e) then Evaluated(consequent, takes) else Evaluated(alternate, takes)
  }

  // ----- where both orders agree -----

  predicate Overwrites(ref: Reference) {
    ref.isWrite && !ref.isRead
  }

  /**
    A reference of `early`, evaluated before `late` and collected behind it, and one of `late`
    that must not change places.
  */
  predicate Clash(early: seq<Reference>, late: seq<Reference>) {
    exists p, q :: p in early && q in late && Conflict(p, q)
  }

  predicate Conflict(p: Reference, q: Reference) {
    p.resolved == q.resolved && (p.isWrite || Overwrites(q))
  }

  predicate NoneOverwrites(refs: seq<Reference>) {
    forall r :: r in refs ==> !Overwrites(r)
  }

  /**
    No assignment evaluates something early that clashes with its other side, and nothing is
    overwritten in a branch or a default value.
  */
  predicate IsOrderly(e: Expr) {
    match e
    case Nothing => true
    case Use(_) => true
    case Then(first, second) => IsOrderly(first) && IsOrderly(second)
    case Assign(left, right) =>
      && IsOrderly(left) && IsOrderly(right)
      && (IsCompound(left) ==> !Clash([ReadOf(left.ref)], CollectedRefs(right)))
      && (!IsBinding(left) ==> !Clash(CollectedRefs(left), CollectedRefs(right)))
    case Pattern(elements) => IsOrderly(elements)
    case Default(target, value) =>
      && IsOrderly(target) && IsOrderly(value) && NoneOverwrites(CollectedRefs(value))
      && (IsBinding(target) ==> !Clash(CollectedRefs(value), CollectedRefs(target)))
    case Branch(test, consequent, alternate) =>
      && IsOrderly(test) && IsOrderly(consequent) && IsOrderly(alternate)
      && NoneOverwrites(CollectedRefs(consequent)) && NoneOverwrites(CollectedRefs(alternate))
  }

  ghost function Ids(refs: seq<Reference>): set<nat> {
    set r | r in refs :: r.identifier
  }

  ghost predicate AreDistinct(refs: seq<Reference>) {
    forall i, j :: 0 <= i < j < |refs| ==> refs[i].identifier != refs[j].identifier
  }

  /** Every reference is resolved, reads or writes, and has an identifier of its own. */
  ghost predicate IsWellFormed(e: Expr) {
    && AreDistinct(CollectedRefs(e))
    && forall r :: r in CollectedRefs(e) ==> r.resolved.Some? && (r.isRead || r.isWrite)
  }

  lemma DistinctParts(a: seq<Reference>, b: seq<Reference>)
    requires AreDistinct(a + b)
    ensures AreDistinct(a) && AreDistinct(b) && Ids(a) !! Ids(b)
  {
    assert forall i :: 0 <= i < |a| ==> (a + b)[i] == a[i];
    assert forall i :: 0 <= i < |b| ==> (a + b)[|a| + i] == b[i];
    forall r, s | r in a && s in b
      ensures r.identifier != s.identifier
    {
      var i :| 0 <= i < |a| && a[i] == r;
      var j :| 0 <= j < |b| && b[j] == s;
      assert (a + b)[i].identifier != (a + b)[|a| + j].identifier;
    }
  }

  // ----- collected references that stand for an evaluation -----

  /** Whatever is read first behind the evaluation is read first behind the collected references. */
  ghost predicate Foresees(refs: seq<Reference>, run: seq<Reference>, v: Variable) {
    && (ReadFirst(run, v, false) ==> ReadFirst(refs, v, false))
    && (ReadFirst(run, v, true) ==> ReadFirst(refs, v, true))
  }

  /** The same at the start and behind every store of `v`. */
  ghost predicate Simulates(refs: seq<Reference>, run: seq<Reference>, v: Variable) {
    && Foresees(refs, run, v)
    && forall i, k :: 0 <= i < |run| && 0 <= k < |refs| && IsStoreOf(run[i], refs[k], v) ==>
      Foresees(refs[k + 1..], run[i + 1..], v)
  }

  predicate IsStoreOf(r: Reference, ref: Reference, v: Variable) {
    r.isWrite && r.resolved == ref.resolved == Some(v) && r.identifier == ref.identifier
  }

  ghost predicate IsAccessOf(r: Reference, ref: Reference) {
    r.identifier == ref.identifier && r.resolved == ref.resolved && (r.isRead ==> ref.isRead)
    && (r.isWrite ==> ref.isWrite)
  }

  ghost predicate Covers(refs: seq<Reference>, run: seq<Reference>) {
    forall r :: r in run ==> exists ref :: ref in refs && IsAccessOf(r, ref)
  }

  ghost predicate Accessed(refs: seq<Reference>, v: Variable) {
    exists r :: r in refs && r.resolved == Some(v)
  }

  ghost predicate Overwritten(refs: seq<Reference>, v: Variable) {
    exists r :: r in refs && r.resolved == Some(v) && Overwrites(r)
  }

  lemma ForeseesAppend(a: seq<Reference>, b: seq<Reference>, c: seq<Reference>, d: seq<Reference>, v: Variable)
    requires Foresees(a, c, v) && Foresees(b, d, v)
    ensures Foresees(a + b, c + d, v)
  {
    ReadFirstAppend(a, b, v, false);
    ReadFirstAppend(a, b, v, true);
    ReadFirstAppend(c, d, v, false);
    ReadFirstAppend(c, d, v, true);
    ReadFirstMonotone(a, v, false, true);
    ReadFirstMonotone(c, v, false, true);
  }

  lemma {:induction false} NotOverwrittenPassesThrough(refs: seq<Reference>, v: Variable)
    requires !Overwritten(refs, v)
    ensures ReadFirst(refs, v, true)
  {
    if refs != [] {
      assert refs[0] in refs;
      assert forall r :: r in refs[1..] ==> r in refs;
      NotOverwrittenPassesThrough(refs[1..], v);
    }
  }

  lemma {:induction false} NotAccessedIsNeutral(refs: seq<Reference>, v: Variable, after: bool)
    requires !Accessed(refs, v)
    ensures ReadFirst(refs, v, after) == after
  {
    if refs != [] {
      assert refs[0] in refs;
      assert forall r :: r in refs[1..] ==> r in refs;
      NotAccessedIsNeutral(refs[1..], v, after);
    }
  }

  lemma {:induction false} OnlyReadIsReadFirst(refs: seq<Reference>, v: Variable, after: bool)
    requires Accessed(refs, v)
    requires forall r :: r in refs && r.resolved == Some(v) ==> r.isRead
    ensures ReadFirst(refs, v, after)
  {
    assert refs[0] in refs;
    assert forall r :: r in refs <==> r == refs[0] || r in refs[1..];
    if refs[0].resolved != Some(v) {
      OnlyReadIsReadFirst(refs[1..], v, after);
    }
  }

  lemma CoversAppend(a: seq<Reference>, b: seq<Reference>, c: seq<Reference>, d: seq<Reference>)
    requires Covers(a, c) && Covers(b, d)
    ensures Covers(a + b, c + d) && Covers(b + a, c + d)
  {
    forall r | r in c + d
      ensures exists ref :: ref in a + b && ref in b + a && IsAccessOf(r, ref)
    {
      if r in c {
        var ref :| ref in a && IsAccessOf(r, ref);
      } else {
        var ref :| ref in b && IsAccessOf(r, ref);
      }
    }
  }

  /** What is not evaluated does no harm if it overwrites nothing. */
  lemma SkippedIsSimulated(refs: seq<Reference>, v: Variable)
    requires NoneOverwrites(refs)
    ensures Simulates(refs, [], v) && Covers(refs, [])
  {
    NotOverwrittenPassesThrough(refs, v);
  }

  /** A store evaluated in `run` is collected in `refs`, in front or behind. */
  lemma PlaceOf(refs: seq<Reference>, others: seq<Reference>, run: seq<Reference>, r: Reference, ref: Reference)
    requires Covers(refs, run) && Ids(refs) !! Ids(others)
    requires r in run && r.identifier == ref.identifier
    ensures ref !in others
  {
    var mine :| mine in refs && IsAccessOf(r, mine);
    assert mine.identifier in Ids(refs);
  }

  lemma InOrder(a: seq<Reference>, b: seq<Reference>, c: seq<Reference>, d: seq<Reference>, v: Variable)
    requires Simulates(a, c, v) && Simulates(b, d, v) && Covers(a, c) && Covers(b, d) && Ids(a) !! Ids(b)
    ensures Simulates(a + b, c + d, v) && Covers(a + b, c + d)
  {
    var refs, run := a + b, c + d;
    CoversAppend(a, b, c, d);
    ForeseesAppend(a, b, c, d, v);
    forall i, k | 0 <= i < |run| && 0 <= k < |refs| && IsStoreOf(run[i], refs[k], v)
      ensures Foresees(refs[k + 1..], run[i + 1..], v)
    {
      if i < |c| {
        PlaceOf(a, b, c, run[i], refs[k]);
        assert k < |a|;
        assert refs[k + 1..] == a[k + 1..] + b && run[i + 1..] == c[i + 1..] + d;
        ForeseesAppend(a[k + 1..], b, c[i + 1..], d, v);
      } else {
        PlaceOf(b, a, d, run[i], refs[k]);
        assert k >= |a|;
        assert refs[k + 1..] == b[k - |a| + 1..] && run[i + 1..] == d[i - |c| + 1..];
        assert run[i] == d[i - |c|] && refs[k] == b[k - |a|];
      }
    }
  }

  ghost predicate OnlyReads(refs: seq<Reference>, v: Variable) {
    forall r :: r in refs && r.resolved == Some(v) ==> r.isRead && !r.isWrite
  }

  /** Without a clash, for each variable one side does not matter or the other can wait. */
  lemma NoClashCases(early: seq<Reference>, late: seq<Reference>, v: Variable)
    requires !Clash(early, late) && forall r :: r in early ==> r.isRead || r.isWrite
    ensures !Accessed(early, v) || !Accessed(late, v) || (OnlyReads(early, v) && !Overwritten(late, v))
  {
    if Accessed(early, v) && Accessed(late, v) {
      var p :| p in early && p.resolved == Some(v);
      var q :| q in late && q.resolved == Some(v);
      forall r | r in early && r.resolved == Some(v)
        ensures r.isRead && !r.isWrite
      {
        assert !Conflict(r, q);
      }
      forall r | r in late && r.resolved == Some(v)
        ensures !Overwrites(r)
      {
        assert !Conflict(p, r);
      }
    }
  }

  lemma NotAccessedInRun(refs: seq<Reference>, run: seq<Reference>, v: Variable)
    requires Covers(refs, run) && !Accessed(refs, v)
    ensures !Accessed(run, v)
  {
  }

  /** `a` and `c` belong to what is evaluated early and collected late. */
  lemma OutOfOrder(a: seq<Reference>, b: seq<Reference>, c: seq<Reference>, d: seq<Reference>, v: Variable)
    requires Simulates(a, c, v) && Simulates(b, d, v) && Covers(a, c) && Covers(b, d) && Ids(a) !! Ids(b)
    requires !Clash(a, b) && forall r :: r in a ==> r.isRead || r.isWrite
    ensures Simulates(b + a, c + d, v) && Covers(b + a, c + d)
  {
    CoversAppend(a, b, c, d);
    NoClashCases(a, b, v);
    if !Accessed(a, v) {
      NotAccessedInRun(a, c, v);
      AddUnaccessed([], b, a, c, d, [], v);
      assert c + d + [] == c + d && [] + b + a == b + a;
    } else if !Accessed(b, v) {
      NotAccessedInRun(b, d, v);
      AddUnaccessed(b, a, [], [], c, d, v);
      assert [] + c + d == c + d && b + a + [] == b + a;
    } else {
      ReadsCanWait(a, b, c, d, v);
    }
  }

  lemma UnaccessedForesees(refs: seq<Reference>, run: seq<Reference>, v: Variable)
    requires !Accessed(refs, v) && !Accessed(run, v)
    ensures Foresees(refs, run, v)
  {
    NotAccessedIsNeutral(refs, v, false);
    NotAccessedIsNeutral(refs, v, true);
    NotAccessedIsNeutral(run, v, false);
    NotAccessedIsNeutral(run, v, true);
  }

  /** References and accesses of other variables around change nothing. */
  lemma AddUnaccessed(x: seq<Reference>, refs: seq<Reference>, y: seq<Reference>,
                      s: seq<Reference>, run: seq<Reference>, t: seq<Reference>, v: Variable)
    requires Simulates(refs, run, v)
    requires !Accessed(x, v) && !Accessed(y, v) && !Accessed(s, v) && !Accessed(t, v)
    ensures Simulates(x + refs + y, s + run + t, v)
  {
    var wide, longer := x + refs + y, s + run + t;
    UnaccessedForesees(x, s, v);
    UnaccessedForesees(y, t, v);
    ForeseesAppend(x, refs, s, run, v);
    ForeseesAppend(x + refs, y, s + run, t, v);
    forall i, k | 0 <= i < |longer| && 0 <= k < |wide| && IsStoreOf(longer[i], wide[k], v)
      ensures Foresees(wide[k + 1..], longer[i + 1..], v)
    {
      assert |s| <= i < |s + run| by { assert longer[i] !in s && longer[i] !in t; }
      assert |x| <= k < |x + refs| by { assert wide[k] !in x && wide[k] !in y; }
      assert longer[i] == run[i - |s|] && wide[k] == refs[k - |x|];
      assert longer[i + 1..] == run[i - |s| + 1..] + t && wide[k + 1..] == refs[k - |x| + 1..] + y;
      ForeseesAppend(refs[k - |x| + 1..], y, run[i - |s| + 1..], t, v);
    }
  }

  lemma AlwaysRead(refs: seq<Reference>, a: seq<Reference>, v: Variable)
    requires !Overwritten(refs, v) && Accessed(a, v) && OnlyReads(a, v)
    ensures ReadFirst(refs + a, v, false) && ReadFirst(refs + a, v, true)
  {
    NotOverwrittenPassesThrough(refs, v);
    OnlyReadIsReadFirst(a, v, false);
    OnlyReadIsReadFirst(a, v, true);
    ReadFirstAppend(refs, a, v, false);
    ReadFirstAppend(refs, a, v, true);
  }

  lemma ReadsCanWait(a: seq<Reference>, b: seq<Reference>, c: seq<Reference>, d: seq<Reference>, v: Variable)
    requires Covers(a, c) && Covers(b, d) && Ids(a) !! Ids(b)
    requires Accessed(a, v) && OnlyReads(a, v) && !Overwritten(b, v)
    ensures Simulates(b + a, c + d, v)
  {
    var refs, run := b + a, c + d;
    AlwaysRead(b, a, v);
    forall i, k | 0 <= i < |run| && 0 <= k < |refs| && IsStoreOf(run[i], refs[k], v)
      ensures Foresees(refs[k + 1..], run[i + 1..], v)
    {
      assert run[i] !in c;
      PlaceOf(b, a, d, run[i], refs[k]);
      assert k < |b|;
      assert refs[k + 1..] == b[k + 1..] + a;
      AlwaysRead(b[k + 1..], a, v);
    }
  }

  /** The target of a compound assignment is read before and written behind the right-hand side. */
  lemma CompoundIsSimulated(p: Reference, b: seq<Reference>, d: seq<Reference>, v: Variable)
    requires p.isRead && p.isWrite && Simulates(b, d, v) && Covers(b, d) && p.identifier !in Ids(b)
    requires !Clash([ReadOf(p)], b)
    ensures Simulates(b + [p], [ReadOf(p)] + d + [WriteOf(p)], v) && Covers(b + [p], [ReadOf(p)] + d + [WriteOf(p)])
  {
    var refs, run := b + [p], [ReadOf(p)] + d + [WriteOf(p)];
    assert Covers(refs, run) by {
      assert p in refs && IsAccessOf(ReadOf(p), p) && IsAccessOf(WriteOf(p), p);
    }
    if p.resolved != Some(v) {
      AddUnaccessed([], b, [p], [ReadOf(p)], d, [WriteOf(p)], v);
      assert [] + b + [p] == refs;
    } else {
      assert !Overwritten(b, v) by {
        forall q | q in b && q.resolved == Some(v)
          ensures !Overwrites(q)
        {
          assert ReadOf(p) in [ReadOf(p)] && !Conflict(ReadOf(p), q);
        }
      }
      forall k | 0 <= k <= |b|
        ensures ReadFirst(b[k..] + [p], v, false) && ReadFirst(b[k..] + [p], v, true)
      {
        NotOverwrittenPassesThrough(b[k..], v);
        ReadFirstAppend(b[k..], [p], v, false);
        ReadFirstAppend(b[k..], [p], v, true);
      }
      assert b[0..] == b;
      forall i, k | 0 <= i < |run| && 0 <= k < |refs| && IsStoreOf(run[i], refs[k], v)
        ensures Foresees(refs[k + 1..], run[i + 1..], v)
      {
        if k < |b| {
          assert refs[k + 1..] == b[k + 1..] + [p];
        } else {
          assert i == |run| - 1 by {
            if 1 <= i < |run| - 1 {
              assert run[i] == d[i - 1];
              PlaceOf(b, [p], d, run[i], p);
            }
          }
        }
      }
    }
  }

  lemma OwnAccessesAreSimulated(ref: Reference, v: Variable)
    ensures Simulates([ref], Accesses(ref), v) && Covers([ref], Accesses(ref))
  {
    assert ref in [ref];
    assert forall r :: r in Accesses(ref) ==> IsAccessOf(r, ref);
    if ref.resolved != Some(v) {
      UnaccessedForesees([ref], Accesses(ref), v);
    }
  }

  /** Where both orders agree, the collected references foresee every evaluation. */
  lemma {:induction false} EvaluationIsSimulated(e: Expr, takes: Expr -> bool, v: Variable)
    requires IsWellFormed(e) && IsOrderly(e)
    ensures Simulates(CollectedRefs(e), Evaluated(e, takes), v) && Covers(CollectedRefs(e), Evaluated(e, takes))
  {
    match e
    case Nothing =>
    case Use(ref) => OwnAccessesAreSimulated(ref, v);
    case Then(first, second) =>
      PartsAreWellFormed(first, second);
      EvaluationIsSimulated(first, takes, v);
      EvaluationIsSimulated(second, takes, v);
      InOrder(CollectedRefs(first), CollectedRefs(second), Evaluated(first, takes), Evaluated(second, takes), v);
    case Assign(left, right) =>
      SidesAreWellFormed(left, right);
      EvaluationIsSimulated(left, takes, v);
      EvaluationIsSimulated(right, takes, v);
      if IsCompound(left) {
        assert left.ref in CollectedRefs(left) && left.ref.identifier in Ids(CollectedRefs(left));
        CompoundIsSimulated(left.ref, CollectedRefs(right), Evaluated(right, takes), v);
      } else if IsBinding(left) {
        InOrder(CollectedRefs(right), CollectedRefs(left), Evaluated(right, takes), Evaluated(left, takes), v);
      } else {
        OutOfOrder(CollectedRefs(left), CollectedRefs(right), Evaluated(left, takes), Evaluated(right, takes), v);
      }
    case Pattern(elements) => EvaluationIsSimulated(elements, takes, v);
    case Default(target, value) =>
      DefaultIsWellFormed(target, value);
      EvaluationIsSimulated(target, takes, v);
      EvaluationIsSimulated(value, takes, v);
      SkippedIsSimulated(CollectedRefs(value), v);
      var needed := if takes(e) then Evaluated(value, takes) else [];
      if IsBinding(target) {
        OutOfOrder(CollectedRefs(value), CollectedRefs(target), needed, Evaluated(target, takes), v);
      } else {
        InOrder(CollectedRefs(target), CollectedRefs(value), Evaluated(target, takes), needed, v);
      }
    case Branch(test, consequent, alternate) =>
      BranchIsWellFormed(test, consequent, alternate);
      EvaluationIsSimulated(test, takes, v);
      EvaluationIsSimulated(consequent, takes, v);
      EvaluationIsSimulated(alternate, takes, v);
      EitherIsSimulated(CollectedRefs(consequent), CollectedRefs(alternate),
                        Evaluated(consequent, takes), Evaluated(alternate, takes), v);
      InOrder(CollectedRefs(test), CollectedRefs(consequent) + CollectedRefs(alternate), Evaluated(test, takes),
              if takes(e) then Evaluated(consequent, takes) else Evaluated(alternate, takes), v);
  }

  /** Every evaluation accesses only what is collected. */
  lemma {:induction false} EvaluationIsCovered(e: Expr, takes: Expr -> bool)
    ensures Covers(CollectedRefs(e), Evaluated(e, takes))
  {
    match e
    case Nothing =>
    case Use(ref) => OwnAccessesAreSimulated(ref, "");
    case Then(first, second) =>
      EvaluationIsCovered(first, takes);
      EvaluationIsCovered(second, takes);
      CoversAppend(CollectedRefs(first), CollectedRefs(second), Evaluated(first, takes), Evaluated(second, takes));
    case Assign(left, right) =>
      EvaluationIsCovered(left, takes);
      EvaluationIsCovered(right, takes);
      AssignmentIsCovered(left, CollectedRefs(left), CollectedRefs(right), Evaluated(left, takes),
                          Evaluated(right, takes));
    case Pattern(elements) => EvaluationIsCovered(elements, takes);
    case Default(target, value) =>
      EvaluationIsCovered(target, takes);
      EvaluationIsCovered(value, takes);
      var needed := if takes(e) then Evaluated(value, takes) else [];
      CoversAppend(CollectedRefs(target), CollectedRefs(value), Evaluated(target, takes), needed);
      CoversAppend(CollectedRefs(value), CollectedRefs(target), needed, Evaluated(target, takes));
    case Branch(test, consequent, alternate) =>
      EvaluationIsCovered(test, takes);
      EvaluationIsCovered(consequent, takes);
      EvaluationIsCovered(alternate, takes);
      var rest := if takes(e) then Evaluated(consequent, takes) else Evaluated(alternate, takes);
      CoversMore(CollectedRefs(consequent), CollectedRefs(alternate), rest);
      CoversAppend(CollectedRefs(test), CollectedRefs(consequent) + CollectedRefs(alternate), Evaluated(test, takes),
                   rest);
  }

  lemma AssignmentIsCovered(left: Expr, a: seq<Reference>, b: seq<Reference>, c: seq<Reference>, d: seq<Reference>)
    requires a == CollectedRefs(left) && Covers(a, c) && Covers(b, d)
    ensures Covers(b + a, AssignmentRun(left, c, d))
  {
    CoversAppend(a, b, c, d);
    CoversAppend(b, a, d, c);
    if IsCompound(left) {
      var p := left.ref;
      assert p in a && IsAccessOf(ReadOf(p), p) && IsAccessOf(WriteOf(p), p);
      assert Covers(a, [ReadOf(p)]) && Covers(a, [WriteOf(p)]);
      CoversAppend(a, b, [ReadOf(p)], d);
      CoversTwice(b + a, [ReadOf(p)] + d, [WriteOf(p)]);
    }
  }

  lemma CoversMore(a: seq<Reference>, b: seq<Reference>, run: seq<Reference>)
    requires Covers(a, run) || Covers(b, run)
    ensures Covers(a + b, run)
  {
    assert Covers(a, []) && Covers(b, []);
    if Covers(a, run) {
      CoversAppend(a, b, run, []);
      assert run + [] == run;
    } else {
      CoversAppend(a, b, [], run);
      assert [] + run == run;
    }
  }

  lemma CoversTwice(refs: seq<Reference>, c: seq<Reference>, d: seq<Reference>)
    requires Covers(refs, c) && Covers(refs, d)
    ensures Covers(refs, c + d)
  {
  }

  lemma EitherIsSimulated(a: seq<Reference>, b: seq<Reference>, c: seq<Reference>, d: seq<Reference>, v: Variable)
    requires Simulates(a, c, v) && Simulates(b, d, v) && Covers(a, c) && Covers(b, d) && Ids(a) !! Ids(b)
    requires NoneOverwrites(a) && NoneOverwrites(b)
    ensures Simulates(a + b, c, v) && Covers(a + b, c) && Simulates(a + b, d, v) && Covers(a + b, d)
  {
    SkippedIsSimulated(a, v);
    SkippedIsSimulated(b, v);
    InOrder(a, b, c, [], v);
    InOrder(a, b, [], d, v);
    assert c + [] == c && [] + d == d;
  }

  lemma PartsAreWellFormed(a: Expr, b: Expr)
    requires IsWellFormed(Then(a, b))
    ensures IsWellFormed(a) && IsWellFormed(b) && Ids(CollectedRefs(a)) !! Ids(CollectedRefs(b))
  {
    DistinctParts(CollectedRefs(a), CollectedRefs(b));
  }

  lemma SidesAreWellFormed(left: Expr, right: Expr)
    requires IsWellFormed(Assign(left, right))
    ensures IsWellFormed(left) && IsWellFormed(right) && Ids(CollectedRefs(right)) !! Ids(CollectedRefs(left))
  {
    assert CollectedRefs(Assign(left, right)) == CollectedRefs(Then(right, left));
    PartsAreWellFormed(right, left);
  }

  lemma DefaultIsWellFormed(target: Expr, value: Expr)
    requires IsWellFormed(Default(target, value))
    ensures IsWellFormed(target) && IsWellFormed(value) && Ids(CollectedRefs(target)) !! Ids(CollectedRefs(value))
  {
    assert CollectedRefs(Default(target, value)) == CollectedRefs(Then(target, value));
    PartsAreWellFormed(target, value);
  }

  lemma BranchIsWellFormed(test: Expr, consequent: Expr, alternate: Expr)
    requires IsWellFormed(Branch(test, consequent, alternate))
    ensures IsWellFormed(test) && Ids(CollectedRefs(test)) !! Ids(CollectedRefs(consequent) + CollectedRefs(alternate))
    ensures IsWellFormed(consequent) && IsWellFormed(alternate)
      && Ids(CollectedRefs(consequent)) !! Ids(CollectedRefs(alternate))
  {
    var both := Then(consequent, alternate);
    assert CollectedRefs(Branch(test, consequent, alternate)) == CollectedRefs(Then(test, both));
    PartsAreWellFormed(test, both);
    PartsAreWellFormed(consequent, alternate);
  }

  // ----- programs -----

  /** For each segment its successors and its code. */
  datatype Program = Program(next: seq<seq<SegmentId>>, code: seq<Expr>)
  {
    ghost predicate Valid() {
      && |next| == |code|
      && (forall id, k :: 0 <= id < |next| && 0 <= k < |next[id]| ==> next[id][k] < |next|)
      && forall id :: 0 <= id < |code| ==> IsWellFormed(code[id])
    }

    /** What the rule collects. */
    ghost function Segments(): seq<Collected> {
      seq(|code|, id requires 0 <= id < |code| =>
        Collected(ReadsOf(CollectedRefs(code[id])), WritesOf(CollectedRefs(code[id])), CollectedRefs(code[id])))
    }

    lemma SegmentsAreConsistent()
      requires Valid()
      ensures Consistent(next, Segments())
    {
    }
  }

  /**
    An evaluation of the segment of a store, the place of the store in it, and how control goes on
    behind the segment.
  */
  datatype Execution = Execution(takes: Expr -> bool, store: nat, path: seq<SegmentId>, choices: seq<Expr -> bool>)

  function Executed(p: Program, path: seq<SegmentId>, choices: seq<Expr -> bool>): seq<Reference>
    requires |path| == |choices|
  {
    if path == [] then []
    else
      (if path[0] < |p.code| then Evaluated(p.code[path[0]], choices[0]) else [])
      + Executed(p, path[1..], choices[1..])
  }

  /** `x` executes the store collected as reference `k` of segment `id`. */
  ghost predicate Executes(p: Program, id: SegmentId, k: nat, x: Execution)
    requires p.Valid() && id < |p.code| && k < |CollectedRefs(p.code[id])|
  {
    var run, ref := Evaluated(p.code[id], x.takes), CollectedRefs(p.code[id])[k];
    p.SegmentsAreConsistent();
    && x.store < |run| && IsStoreOf(run[x.store], ref, ref.resolved.value)
    && Continues(p.next, p.Segments(), id, x.path) && |x.path| == |x.choices|
  }

  /** The accesses behind the store. */
  function Behind(p: Program, id: SegmentId, x: Execution): seq<Reference>
    requires id < |p.code| && x.store < |Evaluated(p.code[id], x.takes)| && |x.path| == |x.choices|
  {
    Evaluated(p.code[id], x.takes)[x.store + 1..] + Executed(p, x.path, x.choices)
  }

  /** The store at reference `k` of segment `id` is one that the rule takes for dead. */
  ghost predicate IsJudgedDead(p: Program, id: SegmentId, k: nat)
    requires p.Valid() && id < |p.code| && k < |CollectedRefs(p.code[id])|
  {
    var ref := CollectedRefs(p.code[id])[k];
    p.SegmentsAreConsistent();
    ref.isWrite && !MayBeRead(p.next, p.Segments(), id, k, ref.resolved.value)
  }

  ghost predicate ReadsStore(p: Program, id: SegmentId, k: nat, x: Execution)
    requires p.Valid() && id < |p.code| && k < |CollectedRefs(p.code[id])|
  {
    Executes(p, id, k, x) && ReadFirst(Behind(p, id, x), CollectedRefs(p.code[id])[k].resolved.value, false)
  }

  /** No execution reads a store that the rule takes for dead. */
  ghost predicate JudgesRightly(p: Program)
    requires p.Valid()
  {
    forall id: nat, k: nat, x :: id < |p.code| && k < |CollectedRefs(p.code[id])| && IsJudgedDead(p, id, k)
      ==> !ReadsStore(p, id, k, x)
  }

  /** The collected references stand for every evaluation, whatever branches it takes. */
  ghost predicate IsForeseen(e: Expr) {
    forall takes, v :: Simulates(CollectedRefs(e), Evaluated(e, takes), v)
  }

  ghost predicate AllForeseen(code: seq<Expr>) {
    forall id :: 0 <= id < |code| ==> IsForeseen(code[id])
  }

  ghost predicate AllOrderly(code: seq<Expr>) {
    forall id :: 0 <= id < |code| ==> IsOrderly(code[id])
  }

  lemma OrderlyIsForeseen(e: Expr)
    requires IsWellFormed(e) && IsOrderly(e)
    ensures IsForeseen(e)
  {
    forall takes, v
      ensures Simulates(CollectedRefs(e), Evaluated(e, takes), v)
    {
      EvaluationIsSimulated(e, takes, v);
    }
  }

  lemma {:induction false} ExecutionIsForeseen(p: Program, path: seq<SegmentId>, choices: seq<Expr -> bool>,
                                               v: Variable)
    requires p.Valid() && AllForeseen(p.code) && |path| == |choices|
    ensures Foresees(Trace(p.Segments(), path), Executed(p, path, choices), v)
    decreases |path|
  {
    if path != [] {
      ExecutionIsForeseen(p, path[1..], choices[1..], v);
      if path[0] < |p.code| {
        assert Simulates(CollectedRefs(p.code[path[0]]), Evaluated(p.code[path[0]], choices[0]), v);
        ForeseesAppend(CollectedRefs(p.code[path[0]]), Trace(p.Segments(), path[1..]),
                       Evaluated(p.code[path[0]], choices[0]), Executed(p, path[1..], choices[1..]), v);
      } else {
        ForeseesAppend([], Trace(p.Segments(), path[1..]), [], Executed(p, path[1..], choices[1..]), v);
      }
    }
  }

  lemma DeadStoreIsNeverRead(p: Program, id: SegmentId, k: nat, x: Execution)
    requires p.Valid() && AllForeseen(p.code) && id < |p.code| && k < |CollectedRefs(p.code[id])|
    requires IsJudgedDead(p, id, k) && Executes(p, id, k, x)
    ensures !ReadFirst(Behind(p, id, x), CollectedRefs(p.code[id])[k].resolved.value, false)
  {
    var refs, run := CollectedRefs(p.code[id]), Evaluated(p.code[id], x.takes);
    var v := refs[k].resolved.value;
    p.SegmentsAreConsistent();
    ReportedStoreIsNeverRead(p.next, p.Segments(), id, k, x.path, v);
    assert Foresees(refs[k + 1..], run[x.store + 1..], v) by { assert Simulates(refs, run, v); }
    ExecutionIsForeseen(p, x.path, x.choices, v);
    ForeseesAppend(refs[k + 1..], Trace(p.Segments(), x.path), run[x.store + 1..], Executed(p, x.path, x.choices), v);
  }

  /** Where the collected references stand for every evaluation, what is reported is dead in every execution. */
  lemma ForeseenProgramIsJudgedRightly(p: Program)
    requires p.Valid() && AllForeseen(p.code)
    ensures JudgesRightly(p)
  {
    forall id: nat, k: nat, x | id < |p.code| && k < |CollectedRefs(p.code[id])| && IsJudgedDead(p, id, k)
      ensures !ReadsStore(p, id, k, x)
    {
      if Executes(p, id, k, x) {
        DeadStoreIsNeverRead(p, id, k, x);
      }
    }
  }

  /** So it is where both orders agree. */
  lemma OrderlyProgramIsJudgedRightly(p: Program)
    requires p.Valid() && AllOrderly(p.code)
    ensures JudgesRightly(p)
  {
    forall id | 0 <= id < |p.code|
      ensures IsForeseen(p.code[id])
    {
      OrderlyIsForeseen(p.code[id]);
    }
    ForeseenProgramIsJudgedRightly(p);
  }

  /** Replacing the value written by a store judged dead changes no value that any execution reads. */
  lemma DeadStoreIsUseless(p: Program, id: SegmentId, k: nat, x: Execution, store: Store, a: Value, b: Value,
                           seen: seq<Value>, compute: (Reference, seq<Value>) -> Value)
    requires p.Valid() && AllForeseen(p.code) && id < |p.code| && k < |CollectedRefs(p.code[id])|
    requires IsJudgedDead(p, id, k) && Executes(p, id, k, x)
    ensures var v := CollectedRefs(p.code[id])[k].resolved.value;
      Observed(Behind(p, id, x), store[v := a], seen, compute)
      == Observed(Behind(p, id, x), store[v := b], seen, compute)
  {
    DeadStoreIsNeverRead(p, id, k, x);
    UnreadValueIsUnobserved(Behind(p, id, x), CollectedRefs(p.code[id])[k].resolved.value, store, a, b, seen, compute);
  }
}
