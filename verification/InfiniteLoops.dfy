/**
  The rule on loops without an end condition, judged against an evaluation relation with
  completion records (section 6.2.4 of ECMA-262, 14th edition).  Conditions may turn out
  either way, an expression may skip any of its operands, and an expression completes
  abruptly only through a `yield` inside it.
*/
module InfiniteLoops {
  import opened Wrappers
  import opened Positions

  type Label = string

  datatype Expr =
    | TrueLiteral
    | Operation(operands: seq<Expr>)
    | Yield(operands: seq<Expr>)
    | FunctionExpression      // never looked into
    | Arrow(body: Stmt)       // looked into, although its body is evaluated elsewhere

  datatype Stmt =
    | ExpressionStatement(expr: Expr)
    | FunctionDeclaration     // never looked into
    | Block(statements: seq<Stmt>)
    | If(test: Expr, consequent: Stmt, alternate: Option<Stmt>)
    | While(test: Expr, loopBody: Stmt)
    | DoWhile(loopBody: Stmt, test: Expr)
    | For(init: Option<Expr>, forTest: Option<Expr>, update: Option<Expr>, loopBody: Stmt)
    | ForEach(right: Expr, loopBody: Stmt)  // ForInStatement or ForOfStatement
    | Switch(discriminant: Expr, clauses: seq<Stmt>)
    | Try(block: Stmt, handler: Option<Stmt>, finalizer: Option<Stmt>)
    | Labeled(name: Label, statement: Stmt)
    | Break(jump: Option<Label>)
    | Continue(jump: Option<Label>)
    | Return(argument: Option<Expr>)
    | Throw(thrown: Expr)

  // ----- the rule -----

  /** The end conditions that the visitor finds at and below an expression. */
  predicate ExprHasEnd(e: Expr, isNestedLoop: bool) {
    match e
    case TrueLiteral => false
    case Operation(operands) => exists x :: x in operands && ExprHasEnd(x, isNestedLoop)
    case Yield(_) => true
    case FunctionExpression => false
    case Arrow(body) => HasEnd(body, isNestedLoop)
  }

  predicate OptionalHasEnd(e: Option<Expr>, isNestedLoop: bool) {
    e.Some? && ExprHasEnd(e.value, isNestedLoop)
  }

  /** The end conditions that the visitor finds at and below a statement. */
  predicate HasEnd(s: Stmt, isNestedLoop: bool) {
    match s
    case ExpressionStatement(expr) => ExprHasEnd(expr, isNestedLoop)
    case FunctionDeclaration => false
    case Block(statements) => exists x :: x in statements && HasEnd(x, isNestedLoop)
    case If(test, consequent, alternate) =>
      ExprHasEnd(test, isNestedLoop) || HasEnd(consequent, isNestedLoop)
      || (alternate.Some? && HasEnd(alternate.value, isNestedLoop))
    case While(test, body) => ExprHasEnd(test, true) || HasEnd(body, true)
    case DoWhile(body, test) => HasEnd(body, true) || ExprHasEnd(test, true)
    case For(init, test, update, body) =>
      || (init.Some? && ExprHasEnd(init.value, true))
      || (test.Some? && ExprHasEnd(test.value, true))
      || (update.Some? && ExprHasEnd(update.value, true))
      || HasEnd(body, true)
    case ForEach(right, body) => ExprHasEnd(right, isNestedLoop) || HasEnd(body, isNestedLoop)
    case Switch(discriminant, clauses) =>
      ExprHasEnd(discriminant, isNestedLoop) || exists x :: x in clauses && HasEnd(x, isNestedLoop)
    case Try(block, handler, finalizer) =>
      || HasEnd(block, isNestedLoop)
      || (handler.Some? && HasEnd(handler.value, isNestedLoop))
      || (finalizer.Some? && HasEnd(finalizer.value, isNestedLoop))
    case Labeled(_, statement) => HasEnd(statement, isNestedLoop)
    case Break(jump) => !isNestedLoop || jump.Some?
    case Continue(_) => false
    case Return(_) => true
    case Throw(_) => true
  }

  // ----- end conditions, by their place in the tree -----

  datatype Tree = StmtNode(stmt: Stmt) | ExprNode(expr: Expr)

  function Stmts(ss: seq<Stmt>): seq<Tree> {
    seq(|ss|, i requires 0 <= i < |ss| => StmtNode(ss[i]))
  }

  function Exprs(es: seq<Expr>): seq<Tree> {
    seq(|es|, i requires 0 <= i < |es| => ExprNode(es[i]))
  }

  function OptionalStmt(s: Option<Stmt>): seq<Tree> {
    if s.Some? then [StmtNode(s.value)] else []
  }

  function OptionalExpr(e: Option<Expr>): seq<Tree> {
    if e.Some? then [ExprNode(e.value)] else []
  }

  /** The nodes directly below a node; functions other than arrows are not entered. */
  function Kids(n: Tree): seq<Tree> {
    match n
    case ExprNode(e) =>
      (match e
       case TrueLiteral => []
       case Operation(operands) => Exprs(operands)
       case Yield(operands) => Exprs(operands)
       case FunctionExpression => []
       case Arrow(body) => [StmtNode(body)])
    case StmtNode(s) =>
      (match s
       case ExpressionStatement(e) => [ExprNode(e)]
       case FunctionDeclaration => []
       case Block(statements) => Stmts(statements)
       case If(test, consequent, alternate) => [ExprNode(test), StmtNode(consequent)] + OptionalStmt(alternate)
       case While(test, body) => [ExprNode(test), StmtNode(body)]
       case DoWhile(body, test) => [StmtNode(body), ExprNode(test)]
       case For(init, test, update, body) =>
         OptionalExpr(init) + OptionalExpr(test) + OptionalExpr(update) + [StmtNode(body)]
       case ForEach(right, body) => [ExprNode(right), StmtNode(body)]
       case Switch(discriminant, clauses) => [ExprNode(discriminant)] + Stmts(clauses)
       case Try(block, handler, finalizer) => [StmtNode(block)] + OptionalStmt(handler) + OptionalStmt(finalizer)
       case Labeled(_, statement) => [StmtNode(statement)]
       case Break(_) => []
       case Continue(_) => []
       case Return(argument) => OptionalExpr(argument)
       case Throw(thrown) => [ExprNode(thrown)])
  }

  predicate IsLoopNode(n: Tree) {
    n.StmtNode? && (n.stmt.While? || n.stmt.DoWhile? || n.stmt.For?)
  }

  function NodeAt(n: Tree, p: Position): Option<Tree>
    decreases |p|
  {
    if p == [] then Some(n)
    else if p[0] < |Kids(n)| then NodeAt(Kids(n)[p[0]], p[1..])
    else None
  }

  /** There is a `while`, `do` or `for` on the way to the position. */
  predicate LoopOnTheWay(n: Tree, p: Position)
    decreases |p|
  {
    p != [] && p[0] < |Kids(n)| && (IsLoopNode(n) || LoopOnTheWay(Kids(n)[p[0]], p[1..]))
  }

  /** A `return`, `throw`, `yield` or labelled `break`, or a `break` that is not in an inner loop. */
  predicate IsEnd(n: Tree, inLoop: bool) {
    match n
    case ExprNode(e) => e.Yield?
    case StmtNode(s) => s.Return? || s.Throw? || (s.Break? && (s.jump.Some? || !inLoop))
  }

  ghost predicate EndAt(n: Tree, p: Position, isNestedLoop: bool) {
    NodeAt(n, p).Some? && IsEnd(NodeAt(n, p).value, isNestedLoop || LoopOnTheWay(n, p))
  }

  predicate TreeHasEnd(n: Tree, isNestedLoop: bool) {
    match n
    case ExprNode(e) => ExprHasEnd(e, isNestedLoop)
    case StmtNode(s) => HasEnd(s, isNestedLoop)
  }

  lemma EndBelow(n: Tree, k: nat, rest: Position, isNestedLoop: bool) returns (p: Position)
    requires k < |Kids(n)| && EndAt(Kids(n)[k], rest, isNestedLoop || IsLoopNode(n))
    ensures EndAt(n, p, isNestedLoop)
  {
    p := [k] + rest;
    assert p[1..] == rest;
  }

  lemma {:induction false} ExprEndHasPosition(e: Expr, isNestedLoop: bool) returns (p: Position)
    requires ExprHasEnd(e, isNestedLoop)
    ensures EndAt(ExprNode(e), p, isNestedLoop)
    decreases e
  {
    p := [];
    match e
    case Operation(operands) =>
      var k :| 0 <= k < |operands| && ExprHasEnd(operands[k], isNestedLoop);
      var rest := ExprEndHasPosition(operands[k], isNestedLoop);
      p := EndBelow(ExprNode(e), k, rest, isNestedLoop);
    case Yield(_) =>
    case Arrow(body) =>
      var rest := EndHasPosition(body, isNestedLoop);
      p := EndBelow(ExprNode(e), 0, rest, isNestedLoop);
  }

  /** A kid with an end condition: which, and where in it. */
  lemma {:induction false} EndHasPosition(s: Stmt, isNestedLoop: bool) returns (p: Position)
    requires HasEnd(s, isNestedLoop)
    ensures EndAt(StmtNode(s), p, isNestedLoop)
    decreases s
  {
    var n := StmtNode(s);
    if IsEnd(n, isNestedLoop) {
      p := [];
    } else {
      var k := KidWithEnd(s, isNestedLoop);
      var nested := isNestedLoop || IsLoopNode(n);
      var rest: Position;
      match Kids(n)[k] {
        case ExprNode(e) =>
          KidIsSmaller(s, k);
          rest := ExprEndHasPosition(e, nested);
        case StmtNode(x) =>
          KidIsSmaller(s, k);
          rest := EndHasPosition(x, nested);
      }
      p := EndBelow(n, k, rest, isNestedLoop);
    }
  }

  lemma KidIsSmaller(s: Stmt, k: nat)
    requires k < |Kids(StmtNode(s))|
    ensures match Kids(StmtNode(s))[k] case ExprNode(e) => e < s case StmtNode(x) => x < s
  {
  }

  lemma KidWithEnd(s: Stmt, isNestedLoop: bool) returns (k: nat)
    requires HasEnd(s, isNestedLoop) && !IsEnd(StmtNode(s), isNestedLoop)
    ensures k < |Kids(StmtNode(s))| && TreeHasEnd(Kids(StmtNode(s))[k], isNestedLoop || IsLoopNode(StmtNode(s)))
  {
    match s
    case ExpressionStatement(_) => k := 0;
    case Block(statements) => k :| 0 <= k < |statements| && HasEnd(statements[k], isNestedLoop);
    case If(test, consequent, _) =>
      k := if ExprHasEnd(test, isNestedLoop) then 0 else if HasEnd(consequent, isNestedLoop) then 1 else 2;
    case While(test, _) => k := if ExprHasEnd(test, true) then 0 else 1;
    case DoWhile(body, _) => k := if HasEnd(body, true) then 0 else 1;
    case For(init, test, update, _) =>
      var behindInit := |OptionalExpr(init)|;
      var behindTest := behindInit + |OptionalExpr(test)|;
      k := if OptionalHasEnd(init, true) then 0
           else if OptionalHasEnd(test, true) then behindInit
           else if OptionalHasEnd(update, true) then behindTest
           else behindTest + |OptionalExpr(update)|;
    case ForEach(right, _) => k := if ExprHasEnd(right, isNestedLoop) then 0 else 1;
    case Switch(discriminant, clauses) =>
      k := 0;
      if !ExprHasEnd(discriminant, isNestedLoop) {
        var i :| 0 <= i < |clauses| && HasEnd(clauses[i], isNestedLoop);
        k := i + 1;
      }
    case Try(block, handler, _) =>
      k := if HasEnd(block, isNestedLoop) then 0
           else if handler.Some? && HasEnd(handler.value, isNestedLoop) then 1
           else 1 + |OptionalStmt(handler)|;
    case Labeled(_, _) => k := 0;
  }

  /** What has an end condition directly below has one. */
  lemma KidGivesEnd(n: Tree, k: nat, isNestedLoop: bool)
    requires k < |Kids(n)| && TreeHasEnd(Kids(n)[k], isNestedLoop || IsLoopNode(n))
    ensures TreeHasEnd(n, isNestedLoop)
  {
    match n
    case ExprNode(e) =>
      if e.Operation? {
        assert e.operands[k] in e.operands;
      }
    case StmtNode(s) => StmtKidGivesEnd(s, k, isNestedLoop);
  }

  lemma StmtKidGivesEnd(s: Stmt, k: nat, isNestedLoop: bool)
    requires k < |Kids(StmtNode(s))| && TreeHasEnd(Kids(StmtNode(s))[k], isNestedLoop || IsLoopNode(StmtNode(s)))
    ensures HasEnd(s, isNestedLoop)
  {
    match s
    case Block(statements) => assert statements[k] in statements;
    case Switch(_, clauses) =>
      if k > 0 {
        assert clauses[k - 1] in clauses;
      }
    case _ =>
  }

  lemma {:induction false} PositionHasEnd(n: Tree, p: Position, isNestedLoop: bool)
    requires EndAt(n, p, isNestedLoop)
    ensures TreeHasEnd(n, isNestedLoop)
    decreases |p|
  {
    if p != [] {
      PositionHasEnd(Kids(n)[p[0]], p[1..], isNestedLoop || IsLoopNode(n));
      KidGivesEnd(n, p[0], isNestedLoop);
    }
  }

  /** The visitor finds an end condition exactly when there is one at some position of the body, outside functions. */
  lemma HasEndExactlyAtSomePosition(s: Stmt, isNestedLoop: bool)
    ensures HasEnd(s, isNestedLoop) <==> exists p :: EndAt(StmtNode(s), p, isNestedLoop)
  {
    if HasEnd(s, isNestedLoop) {
      var p := EndHasPosition(s, isNestedLoop);
    }
    if p :| EndAt(StmtNode(s), p, isNestedLoop) {
      PositionHasEnd(StmtNode(s), p, isNestedLoop);
    }
  }

  class LoopVisitor {
    var hasEndCondition: bool

    constructor ()
      ensures !hasEndCondition
    {
      hasEndCondition := false;
    }

    method VisitOptional(e: Option<Expr>, isNestedLoop: bool)
      modifies this
      ensures hasEndCondition <==> old(hasEndCondition) || OptionalHasEnd(e, isNestedLoop)
      decreases e, 1
    {
      if e.Some? {
        VisitExpr(e.value, isNestedLoop);
      }
    }

    method VisitExpr(e: Expr, isNestedLoop: bool)
      modifies this
      ensures hasEndCondition <==> old(hasEndCondition) || ExprHasEnd(e, isNestedLoop)
      decreases e, 0
    {
      match e {
        case TrueLiteral =>
        case FunctionExpression =>
        case Yield(_) => hasEndCondition := true;
        case Arrow(body) => Visit(body, isNestedLoop);
        case Operation(operands) =>
          for k := 0 to |operands|
            invariant hasEndCondition <==>
              old(hasEndCondition) || exists x :: x in operands[..k] && ExprHasEnd(x, isNestedLoop)
          {
            VisitExpr(operands[k], isNestedLoop);
          }
          assert operands[..|operands|] == operands;
      }
    }

    method VisitAll(statements: seq<Stmt>, isNestedLoop: bool)
      modifies this
      ensures hasEndCondition <==> old(hasEndCondition) || exists x :: x in statements && HasEnd(x, isNestedLoop)
      decreases statements, 0
    {
      for k := 0 to |statements|
        invariant hasEndCondition <==>
          old(hasEndCondition) || exists x :: x in statements[..k] && HasEnd(x, isNestedLoop)
      {
        Visit(statements[k], isNestedLoop);
      }
      assert statements[..|statements|] == statements;
    }

    method Visit(s: Stmt, isNestedLoop: bool)
      modifies this
      ensures hasEndCondition <==> old(hasEndCondition) || HasEnd(s, isNestedLoop)
      decreases s, 1
    {
      match s {
        case ExpressionStatement(expr) => VisitExpr(expr, isNestedLoop);
        case FunctionDeclaration =>
        case Block(statements) => VisitAll(statements, isNestedLoop);
        case If(test, consequent, alternate) =>
          VisitExpr(test, isNestedLoop);
          Visit(consequent, isNestedLoop);
          if alternate.Some? {
            Visit(alternate.value, isNestedLoop);
          }
        case While(test, body) =>
          VisitExpr(test, true);
          Visit(body, true);
        case DoWhile(body, test) =>
          Visit(body, true);
          VisitExpr(test, true);
        case For(init, test, update, body) =>
          VisitOptional(init, true);
          VisitOptional(test, true);
          VisitOptional(update, true);
          Visit(body, true);
        case ForEach(right, body) =>
          VisitExpr(right, isNestedLoop);
          Visit(body, isNestedLoop);
        case Switch(discriminant, clauses) =>
          VisitExpr(discriminant, isNestedLoop);
          VisitAll(clauses, isNestedLoop);
        case Try(block, handler, finalizer) =>
          Visit(block, isNestedLoop);
          if handler.Some? {
            Visit(handler.value, isNestedLoop);
          }
          if finalizer.Some? {
            Visit(finalizer.value, isNestedLoop);
          }
        case Labeled(_, statement) => Visit(statement, isNestedLoop);
        case Break(jump) =>
          if !isNestedLoop || jump.Some? {
            hasEndCondition := true;
          }
        case Continue(_) =>
        case Return(_) => hasEndCondition := true;
        case Throw(_) => hasEndCondition := true;
      }
    }
  }

  predicate TestNeverFails(s: Stmt) {
    match s
    case While(test, _) => test.TrueLiteral?
    case DoWhile(_, test) => test.TrueLiteral?
    case For(_, test, _, _) => test.None? || test.value.TrueLiteral?
    case _ => false
  }

  ghost predicate Reported(s: Stmt) {
    TestNeverFails(s) && !HasEnd(s.loopBody, false)
  }

  /**
    A loop is reported when its test is absent or literally true and there is no end condition at
    any position of its body.
  */
  method CheckLoop(s: Stmt) returns (reported: bool)
    ensures reported <==> Reported(s)
    ensures reported <==> IsLoopNode(StmtNode(s)) && !MayFail(s) && !exists p :: EndAt(StmtNode(s.loopBody), p, false)
  {
    reported := false;
    if TestNeverFails(s) {
      var visitor := new LoopVisitor();
      visitor.Visit(s.loopBody, false);
      reported := !visitor.hasEndCondition;
    }
    if IsLoopNode(StmtNode(s)) {
      HasEndExactlyAtSomePosition(s.loopBody, false);
    }
  }

  // ----- evaluation -----

  datatype Completion = Normal | Broken(target: Option<Label>) | Continued(target: Option<Label>) | Returned | Thrown

  function LoopTest(s: Stmt): Option<Expr> {
    match s
    case While(test, _) => Some(test)
    case DoWhile(_, test) => Some(test)
    case For(_, test, _, _) => test
    case _ => None
  }

  /** Any test may turn out false but the literal `true`; no test is like that literal. */
  predicate MayFail(s: Stmt) {
    LoopTest(s).Some? && !LoopTest(s).value.TrueLiteral?
  }

  predicate LoopContinues(c: Completion, labels: set<Label>) {
    c.Normal? || (c.Continued? && (c.target.None? || c.target.value in labels))
  }

  /** What a breakable statement makes of the completion of its body. */
  function Caught(c: Completion): Completion {
    if c == Broken(None) then Normal else c
  }

  function Unlabelled(name: Label, c: Completion): Completion {
    if c == Broken(Some(name)) then Normal else c
  }

  predicate MayYield(e: Expr) {
    match e
    case TrueLiteral => false
    case Operation(operands) => exists x :: x in operands && MayYield(x)
    case Yield(_) => true
    case FunctionExpression => false
    case Arrow(_) => false
  }

  /** A suspended `yield` may be resumed by a return or a throw; nothing else interrupts an expression. */
  predicate Interrupts(e: Expr, c: Completion) {
    MayYield(e) && (c.Returned? || c.Thrown?)
  }

  predicate OptionalInterrupts(e: Option<Expr>, c: Completion) {
    e.Some? && Interrupts(e.value, c)
  }

  /** `s`, with the label set `labels`, can complete with `c` by a derivation of height at most `d`. */
  ghost predicate Completes(s: Stmt, labels: set<Label>, c: Completion, d: nat)
    decreases d, 0
  {
    d > 0 && match s
    case ExpressionStatement(expr) => c.Normal? || Interrupts(expr, c)
    case FunctionDeclaration => c.Normal?
    case Block(statements) => CompletesSeq(statements, c, d - 1)
    case If(test, consequent, alternate) =>
      || Interrupts(test, c)
      || Completes(consequent, {}, c, d - 1)
      || (if alternate.Some? then Completes(alternate.value, {}, c, d - 1) else c.Normal?)
    case While(test, body) =>
      Interrupts(test, c) || (c.Normal? && MayFail(s)) || Iterates(s, None, labels, c, d - 1)
    case DoWhile(body, test) => Iterates(s, Some(test), labels, c, d - 1)
    case For(init, test, update, body) =>
      if init.Some? then Interrupts(init.value, c) || Completes(s.(init := None), labels, c, d - 1)
      else OptionalInterrupts(test, c) || (c.Normal? && MayFail(s)) || Iterates(s, update, labels, c, d - 1)
    case ForEach(right, body) => Interrupts(right, c) || c.Normal? || Iterates(s, None, labels, c, d - 1)
    case Switch(discriminant, clauses) => Interrupts(discriminant, c) || Selects(clauses, c, d - 1)
    case Try(block, handler, finalizer) => Tries(block, handler, finalizer, c, d - 1)
    case Labeled(name, statement) => Labels(name, statement, labels + {name}, c, d - 1)
    case Break(jump) => c == Broken(jump)
    case Continue(jump) => c == Continued(jump)
    case Return(argument) => c.Returned? || OptionalInterrupts(argument, c)
    case Throw(thrown) => c.Thrown? || Interrupts(thrown, c)
  }

  /** The body runs once; then the loop ends with it, ends in `tail`, which is evaluated next, or starts again. */
  ghost predicate Iterates(loop: Stmt, tail: Option<Expr>, labels: set<Label>, c: Completion, d: nat)
    requires loop.While? || loop.DoWhile? || loop.For? || loop.ForEach?
    decreases d, 3
  {
    exists r :: Completes(loop.loopBody, {}, r, d) && EndsOrRepeats(loop, r, tail, labels, c, d)
  }

  ghost predicate EndsOrRepeats(loop: Stmt, r: Completion, tail: Option<Expr>, labels: set<Label>, c: Completion,
                                d: nat)
    decreases d, 2
  {
    if !LoopContinues(r, labels) then c == Caught(r)
    else
      || OptionalInterrupts(tail, c)
      || (loop.DoWhile? && MayFail(loop) && c.Normal?)
      || Completes(loop, labels, c, d)
  }

  ghost predicate CompletesSeq(body: seq<Stmt>, c: Completion, d: nat)
    decreases d, 1, |body|
  {
    if body == [] then c.Normal?
    else
      || (!c.Normal? && Completes(body[0], {}, c, d))
      || (Completes(body[0], {}, Normal, d) && CompletesSeq(body[1..], c, d))
  }

  /** A `switch` enters its clauses anywhere, or nowhere. */
  ghost predicate Selects(clauses: seq<Stmt>, c: Completion, d: nat)
    decreases d, 2
  {
    exists k, r :: 0 <= k <= |clauses| && CompletesSeq(clauses[k..], r, d) && c == Caught(r)
  }

  ghost predicate Tries(block: Stmt, handler: Option<Stmt>, finalizer: Option<Stmt>, c: Completion, d: nat)
    decreases d, 2
  {
    exists b, h :: Completes(block, {}, b, d) && Handles(handler, b, h, d) && Finalizes(finalizer, h, c, d)
  }

  ghost predicate Handles(handler: Option<Stmt>, b: Completion, h: Completion, d: nat)
    decreases d, 1
  {
    if b.Thrown? && handler.Some? then Completes(handler.value, {}, h, d) else h == b
  }

  ghost predicate Finalizes(finalizer: Option<Stmt>, h: Completion, c: Completion, d: nat)
    decreases d, 1
  {
    if finalizer.None? then c == h
    else (c == h && Completes(finalizer.value, {}, Normal, d)) || (!c.Normal? && Completes(finalizer.value, {}, c, d))
  }

  ghost predicate Labels(name: Label, statement: Stmt, labels: set<Label>, c: Completion, d: nat)
    decreases d, 1
  {
    exists r :: Completes(statement, labels, r, d) && c == Unlabelled(name, r)
  }

  // ----- how something without an end condition can complete -----

  /** The labels of the `continue` statements that leave `s`, which has the label set `labels`. */
  function EscapingContinues(s: Stmt, labels: set<Label>): set<Label>
    decreases s
  {
    match s
    case ExpressionStatement(_) => {}
    case FunctionDeclaration => {}
    case Block(statements) => set x, l | x in statements && l in EscapingContinues(x, {}) :: l
    case If(_, consequent, alternate) =>
      EscapingContinues(consequent, {}) + if alternate.Some? then EscapingContinues(alternate.value, {}) else {}
    case While(_, body) => EscapingContinues(body, {}) - labels
    case DoWhile(body, _) => EscapingContinues(body, {}) - labels
    case For(_, _, _, body) => EscapingContinues(body, {}) - labels
    case ForEach(_, body) => EscapingContinues(body, {}) - labels
    case Switch(_, clauses) => set x, l | x in clauses && l in EscapingContinues(x, {}) :: l
    case Try(block, handler, finalizer) =>
      EscapingContinues(block, {})
      + (if handler.Some? then EscapingContinues(handler.value, {}) else {})
      + (if finalizer.Some? then EscapingContinues(finalizer.value, {}) else {})
    case Labeled(name, statement) => EscapingContinues(statement, labels + {name})
    case Break(_) => {}
    case Continue(jump) => if jump.Some? then {jump.value} else {}
    case Return(_) => {}
    case Throw(_) => {}
  }

  /** The completions left to a statement in which the visitor finds no end condition. */
  ghost predicate Harmless(c: Completion, escaping: set<Label>, isNestedLoop: bool) {
    match c
    case Normal => true
    case Continued(target) => target.None? || target.value in escaping
    case Broken(target) => target.None? && isNestedLoop
    case Returned => false
    case Thrown => false
  }

  ghost predicate AllHarmless(statements: seq<Stmt>, d: nat, escaping: set<Label>, isNestedLoop: bool) {
    forall x, r :: x in statements && Completes(x, {}, r, d) ==> Harmless(r, escaping, isNestedLoop)
  }

  lemma {:induction false} WithoutEndDoesNotYield(e: Expr, isNestedLoop: bool)
    requires !ExprHasEnd(e, isNestedLoop)
    ensures !MayYield(e)
  {
    if e.Operation? {
      forall x | x in e.operands
        ensures !MayYield(x)
      {
        WithoutEndDoesNotYield(x, isNestedLoop);
      }
    }
  }

  lemma {:induction false} SeqHarmless(body: seq<Stmt>, c: Completion, d: nat, escaping: set<Label>, isNestedLoop: bool)
    requires CompletesSeq(body, c, d) && AllHarmless(body, d, escaping, isNestedLoop)
    ensures Harmless(c, escaping, isNestedLoop)
    decreases |body|
  {
    if body != [] && (c.Normal? || !Completes(body[0], {}, c, d)) {
      SeqHarmless(body[1..], c, d, escaping, isNestedLoop);
    }
  }

  /** A loop passes on only the `continue` statements that aim beyond its labels. */
  lemma LoopHarmless(loop: Stmt, tail: Option<Expr>, labels: set<Label>, c: Completion, d: nat, isNestedLoop: bool)
    requires loop.While? || loop.DoWhile? || loop.For? || loop.ForEach?
    requires Iterates(loop, tail, labels, c, d) && (tail.Some? ==> !MayYield(tail.value))
    requires AllHarmless([loop.loopBody], d, EscapingContinues(loop.loopBody, {}), true)
    requires Completes(loop, labels, c, d) ==> Harmless(c, EscapingContinues(loop.loopBody, {}) - labels, isNestedLoop)
    ensures Harmless(c, EscapingContinues(loop.loopBody, {}) - labels, isNestedLoop)
  {
    var r :| Completes(loop.loopBody, {}, r, d) && EndsOrRepeats(loop, r, tail, labels, c, d);
    assert loop.loopBody in [loop.loopBody];
  }

  /** By induction on the derivation: the visitor overlooks no way out but a `continue` to an outer label. */
  lemma {:induction false} WithoutEndIsHarmless(s: Stmt, labels: set<Label>, c: Completion, d: nat, isNestedLoop: bool)
    requires !HasEnd(s, isNestedLoop) && Completes(s, labels, c, d)
    ensures Harmless(c, EscapingContinues(s, labels), isNestedLoop)
    decreases d, 1
  {
    match s
    case ExpressionStatement(expr) => WithoutEndDoesNotYield(expr, isNestedLoop);
    case FunctionDeclaration =>
    case Block(statements) =>
      ListHarmless(statements, d - 1, isNestedLoop);
      SeqHarmless(statements, c, d - 1, EscapingContinues(s, {}), isNestedLoop);
    case If(test, consequent, alternate) =>
      WithoutEndDoesNotYield(test, isNestedLoop);
      if Completes(consequent, {}, c, d - 1) {
        WithoutEndIsHarmless(consequent, {}, c, d - 1, isNestedLoop);
      } else if alternate.Some? {
        WithoutEndIsHarmless(alternate.value, {}, c, d - 1, isNestedLoop);
      }
    case While(test, _) => LoopStepHarmless(s, test, None, labels, c, d, isNestedLoop);
    case DoWhile(_, test) => LoopStepHarmless(s, test, Some(test), labels, c, d, isNestedLoop);
    case ForEach(right, _) => LoopStepHarmless(s, right, None, labels, c, d, isNestedLoop);
    case For(init, test, update, body) => ForHarmless(s, labels, c, d, isNestedLoop);
    case Switch(discriminant, clauses) =>
      WithoutEndDoesNotYield(discriminant, isNestedLoop);
      var k, r :| 0 <= k <= |clauses| && CompletesSeq(clauses[k..], r, d - 1) && c == Caught(r);
      ListHarmless(clauses, d - 1, isNestedLoop);
      SeqHarmless(clauses[k..], r, d - 1, EscapingContinues(s, {}), isNestedLoop);
    case Try(block, handler, finalizer) => TryHarmless(s, c, d, isNestedLoop);
    case Labeled(name, statement) =>
      var r :| Completes(statement, labels + {name}, r, d - 1) && c == Unlabelled(name, r);
      WithoutEndIsHarmless(statement, labels + {name}, r, d - 1, isNestedLoop);
    case Break(_) =>
    case Continue(_) =>
  }

  lemma {:induction false} ListHarmless(statements: seq<Stmt>, d: nat, isNestedLoop: bool)
    requires forall x :: x in statements ==> !HasEnd(x, isNestedLoop)
    ensures AllHarmless(statements, d, set x, l | x in statements && l in EscapingContinues(x, {}) :: l, isNestedLoop)
    decreases d, 2
  {
    forall x, r | x in statements && Completes(x, {}, r, d)
      ensures Harmless(r, set x, l | x in statements && l in EscapingContinues(x, {}) :: l, isNestedLoop)
    {
      WithoutEndIsHarmless(x, {}, r, d, isNestedLoop);
    }
  }

  lemma {:induction false} TryHarmless(s: Stmt, c: Completion, d: nat, isNestedLoop: bool)
    requires s.Try? && !HasEnd(s, isNestedLoop) && Completes(s, {}, c, d)
    ensures Harmless(c, EscapingContinues(s, {}), isNestedLoop)
    decreases d, 0
  {
    var b, h :| Completes(s.block, {}, b, d - 1) && Handles(s.handler, b, h, d - 1)
        && Finalizes(s.finalizer, h, c, d - 1);
    WithoutEndIsHarmless(s.block, {}, b, d - 1, isNestedLoop);
    if s.finalizer.Some? && Completes(s.finalizer.value, {}, c, d - 1) {
      WithoutEndIsHarmless(s.finalizer.value, {}, c, d - 1, isNestedLoop);
    }
  }

  lemma {:induction false} LoopStepHarmless(s: Stmt, head: Expr, tail: Option<Expr>, labels: set<Label>,
                                            c: Completion, d: nat, isNestedLoop: bool)
    requires !HasEnd(s, isNestedLoop) && Completes(s, labels, c, d)
    requires || (s.While? && head == s.test && tail.None?)
             || (s.DoWhile? && head == s.test && tail == Some(head))
             || (s.ForEach? && head == s.right && tail.None?)
    ensures Harmless(c, EscapingContinues(s, labels), isNestedLoop)
    decreases d, 0
  {
    WithoutEndDoesNotYield(head, isNestedLoop || !s.ForEach?);
    if Iterates(s, tail, labels, c, d - 1) {
      forall r | Completes(s.loopBody, {}, r, d - 1)
        ensures Harmless(r, EscapingContinues(s.loopBody, {}), true)
      {
        WithoutEndIsHarmless(s.loopBody, {}, r, d - 1, isNestedLoop || !s.ForEach?);
      }
      if Completes(s, labels, c, d - 1) {
        WithoutEndIsHarmless(s, labels, c, d - 1, isNestedLoop);
      }
      LoopHarmless(s, tail, labels, c, d - 1, isNestedLoop);
    }
  }

  lemma {:induction false} ForHarmless(s: Stmt, labels: set<Label>, c: Completion, d: nat, isNestedLoop: bool)
    requires s.For? && !HasEnd(s, isNestedLoop) && Completes(s, labels, c, d)
    ensures Harmless(c, EscapingContinues(s, labels), isNestedLoop)
    decreases d, 0
  {
    if s.init.Some? {
      WithoutEndDoesNotYield(s.init.value, true);
      WithoutEndIsHarmless(s.(init := None), labels, c, d - 1, isNestedLoop);
    } else {
      if s.forTest.Some? {
        WithoutEndDoesNotYield(s.forTest.value, true);
      }
      if s.update.Some? {
        WithoutEndDoesNotYield(s.update.value, true);
      }
      if Iterates(s, s.update, labels, c, d - 1) {
        forall r | Completes(s.loopBody, {}, r, d - 1)
          ensures Harmless(r, EscapingContinues(s.loopBody, {}), true)
        {
          WithoutEndIsHarmless(s.loopBody, {}, r, d - 1, true);
        }
        if Completes(s, labels, c, d - 1) {
          WithoutEndIsHarmless(s, labels, c, d - 1, isNestedLoop);
        }
        LoopHarmless(s, s.update, labels, c, d - 1, isNestedLoop);
      }
    }
  }

  // ----- the verdict -----

  /** The visitor is only sent into the body; a `yield` in the head of a `for` is a way out that it does not see. */
  predicate HeadMayYield(s: Stmt) {
    s.For? && ((s.init.Some? && MayYield(s.init.value)) || (s.update.Some? && MayYield(s.update.value)))
  }

  /** The only ways in which a reported loop can complete. */
  lemma {:induction false} ReportedLoopCompletion(s: Stmt, labels: set<Label>, c: Completion, d: nat)
    requires Reported(s) && Completes(s, labels, c, d)
    ensures || (c.Continued? && c.target.Some? && c.target.value in EscapingContinues(s.loopBody, {}) - labels)
            || (HeadMayYield(s) && (c.Returned? || c.Thrown?))
    decreases d
  {
    if s.For? && s.init.Some? {
      if Completes(s.(init := None), labels, c, d - 1) {
        ReportedLoopCompletion(s.(init := None), labels, c, d - 1);
      }
    } else {
      var tail := if s.While? then None else if s.DoWhile? then Some(s.test) else s.update;
      var r :| Completes(s.loopBody, {}, r, d - 1) && EndsOrRepeats(s, r, tail, labels, c, d - 1);
      WithoutEndIsHarmless(s.loopBody, {}, r, d - 1, false);
      if Completes(s, labels, c, d - 1) {
        ReportedLoopCompletion(s, labels, c, d - 1);
      }
    }
  }

  // ----- the completions of a statement, from its syntax -----

  function Interruptions(e: Expr): set<Completion> {
    if MayYield(e) then {Returned, Thrown} else {}
  }

  function OptionalInterruptions(e: Option<Expr>): set<Completion> {
    if e.Some? then Interruptions(e.value) else {}
  }

  function NormalIf(possible: bool): set<Completion> {
    if possible then {Normal} else {}
  }

  predicate SomeContinue(bodies: set<Completion>, labels: set<Label>) {
    exists r :: r in bodies && LoopContinues(r, labels)
  }

  /**
    How a loop can end whose body has the completions `bodies`, `tail` being those of what is
    evaluated behind the body.
  */
  function LoopOutcomes(bodies: set<Completion>, labels: set<Label>, tail: set<Completion>): set<Completion> {
    (set r | r in bodies && !LoopContinues(r, labels) :: Caught(r)) + if SomeContinue(bodies, labels) then tail else {}
  }

  function HandledOutcomes(block: set<Completion>, handler: Option<set<Completion>>): set<Completion> {
    if handler.Some? && Thrown in block then (block - {Thrown}) + handler.value else block
  }

  function FinalizedOutcomes(handled: set<Completion>, finalizer: Option<set<Completion>>): set<Completion> {
    if finalizer.None? then handled
    else
      (if Normal in finalizer.value then handled else {})
      + (if handled != {} then finalizer.value - {Normal} else {})
  }

  /** The completions of `s` with the label set `labels`. */
  function Outcomes(s: Stmt, labels: set<Label>): set<Completion>
    decreases s, 0
  {
    match s
    case ExpressionStatement(expr) => {Normal} + Interruptions(expr)
    case FunctionDeclaration => {Normal}
    case Block(statements) => SeqOutcomes(statements)
    case If(test, consequent, alternate) =>
      Interruptions(test) + Outcomes(consequent, {})
      + if alternate.Some? then Outcomes(alternate.value, {}) else {Normal}
    case While(test, body) =>
      Interruptions(test) + NormalIf(MayFail(s)) + LoopOutcomes(Outcomes(body, {}), labels, {})
    case DoWhile(body, test) =>
      LoopOutcomes(Outcomes(body, {}), labels, Interruptions(test) + NormalIf(MayFail(s)))
    case For(init, test, update, body) =>
      OptionalInterruptions(init) + OptionalInterruptions(test) + NormalIf(MayFail(s))
      + LoopOutcomes(Outcomes(body, {}), labels, OptionalInterruptions(update))
    case ForEach(right, body) => Interruptions(right) + {Normal} + LoopOutcomes(Outcomes(body, {}), labels, {})
    case Switch(discriminant, clauses) => Interruptions(discriminant) + ClauseOutcomes(clauses)
    case Try(block, handler, finalizer) =>
      FinalizedOutcomes(HandledOutcomes(Outcomes(block, {}), OptionalOutcomes(handler)), OptionalOutcomes(finalizer))
    case Labeled(name, statement) => set r | r in Outcomes(statement, labels + {name}) :: Unlabelled(name, r)
    case Break(jump) => {Broken(jump)}
    case Continue(jump) => {Continued(jump)}
    case Return(argument) => {Returned} + OptionalInterruptions(argument)
    case Throw(thrown) => {Thrown} + Interruptions(thrown)
  }

  function OptionalOutcomes(s: Option<Stmt>): Option<set<Completion>>
    decreases s, 0
  {
    if s.Some? then Some(Outcomes(s.value, {})) else None
  }

  function SeqOutcomes(body: seq<Stmt>): set<Completion>
    decreases body, 0
  {
    if body == [] then {Normal}
    else
      var first := Outcomes(body[0], {});
      (first - {Normal}) + if Normal in first then SeqOutcomes(body[1..]) else {}
  }

  /** Of all ways to enter the clauses of a `switch`, each suffix of them among these. */
  function ClauseOutcomes(clauses: seq<Stmt>): set<Completion>
    decreases clauses, 1
  {
    (set r | r in SeqOutcomes(clauses) :: Caught(r)) + if clauses == [] then {} else ClauseOutcomes(clauses[1..])
  }

  ghost predicate CanComplete(s: Stmt, labels: set<Label>, c: Completion) {
    exists d: nat :: Completes(s, labels, c, d)
  }

  // A higher derivation is a derivation.

  lemma {:induction false} CompletesHigher(s: Stmt, labels: set<Label>, c: Completion, d: nat, e: nat)
    requires Completes(s, labels, c, d) && d <= e
    ensures Completes(s, labels, c, e)
    decreases d, 0
  {
    match s
    case Block(statements) => SeqHigher(statements, c, d - 1, e - 1);
    case If(_, consequent, alternate) =>
      if Completes(consequent, {}, c, d - 1) {
        CompletesHigher(consequent, {}, c, d - 1, e - 1);
      } else if alternate.Some? && Completes(alternate.value, {}, c, d - 1) {
        CompletesHigher(alternate.value, {}, c, d - 1, e - 1);
      }
    case While(_, _) => LoopHigher(s, None, labels, c, d, e);
    case DoWhile(_, test) => LoopHigher(s, Some(test), labels, c, d, e);
    case ForEach(_, _) => LoopHigher(s, None, labels, c, d, e);
    case For(init, _, update, _) =>
      if init.Some? {
        if Completes(s.(init := None), labels, c, d - 1) {
          CompletesHigher(s.(init := None), labels, c, d - 1, e - 1);
        }
      } else {
        LoopHigher(s, update, labels, c, d, e);
      }
    case Switch(_, clauses) =>
      if Selects(clauses, c, d - 1) {
        var k, r :| 0 <= k <= |clauses| && CompletesSeq(clauses[k..], r, d - 1) && c == Caught(r);
        SeqHigher(clauses[k..], r, d - 1, e - 1);
        assert Selects(clauses, c, e - 1);
      }
    case Try(block, handler, finalizer) => TryHigher(s, c, d, e);
    case Labeled(name, statement) =>
      var r :| Completes(statement, labels + {name}, r, d - 1) && c == Unlabelled(name, r);
      CompletesHigher(statement, labels + {name}, r, d - 1, e - 1);
    case _ =>
  }

  lemma {:induction false} LoopHigher(s: Stmt, tail: Option<Expr>, labels: set<Label>, c: Completion, d: nat, e: nat)
    requires 0 < d <= e && (s.While? || s.DoWhile? || s.For? || s.ForEach?)
    ensures Iterates(s, tail, labels, c, d - 1) ==> Iterates(s, tail, labels, c, e - 1)
    decreases d - 1, 1
  {
    if Iterates(s, tail, labels, c, d - 1) {
      var r :| Completes(s.loopBody, {}, r, d - 1) && EndsOrRepeats(s, r, tail, labels, c, d - 1);
      CompletesHigher(s.loopBody, {}, r, d - 1, e - 1);
      if Completes(s, labels, c, d - 1) {
        CompletesHigher(s, labels, c, d - 1, e - 1);
      }
      assert EndsOrRepeats(s, r, tail, labels, c, e - 1);
    }
  }

  lemma {:induction false} SeqHigher(body: seq<Stmt>, c: Completion, d: nat, e: nat)
    requires CompletesSeq(body, c, d) && d <= e
    ensures CompletesSeq(body, c, e)
    decreases d, 1, |body|
  {
    if body != [] {
      if !c.Normal? && Completes(body[0], {}, c, d) {
        CompletesHigher(body[0], {}, c, d, e);
      } else {
        CompletesHigher(body[0], {}, Normal, d, e);
        SeqHigher(body[1..], c, d, e);
      }
    }
  }

  lemma {:induction false} TryHigher(s: Stmt, c: Completion, d: nat, e: nat)
    requires s.Try? && 0 < d <= e && Tries(s.block, s.handler, s.finalizer, c, d - 1)
    ensures Tries(s.block, s.handler, s.finalizer, c, e - 1)
    decreases d - 1, 2
  {
    var b, h :| Completes(s.block, {}, b, d - 1) && Handles(s.handler, b, h, d - 1)
        && Finalizes(s.finalizer, h, c, d - 1);
    CompletesHigher(s.block, {}, b, d - 1, e - 1);
    if b.Thrown? && s.handler.Some? {
      CompletesHigher(s.handler.value, {}, h, d - 1, e - 1);
    }
    if s.finalizer.Some? {
      if c == h && Completes(s.finalizer.value, {}, Normal, d - 1) {
        CompletesHigher(s.finalizer.value, {}, Normal, d - 1, e - 1);
      } else {
        CompletesHigher(s.finalizer.value, {}, c, d - 1, e - 1);
      }
    }
    assert Completes(s.block, {}, b, e - 1) && Handles(s.handler, b, h, e - 1) && Finalizes(s.finalizer, h, c, e - 1);
  }

  // Every completion is among the outcomes.

  lemma {:induction false} CompletesIsOutcome(s: Stmt, labels: set<Label>, c: Completion, d: nat)
    requires Completes(s, labels, c, d)
    ensures c in Outcomes(s, labels)
    decreases d, 1
  {
    match s
    case Block(statements) => SeqIsOutcome(statements, c, d - 1);
    case If(_, consequent, alternate) =>
      if Completes(consequent, {}, c, d - 1) {
        CompletesIsOutcome(consequent, {}, c, d - 1);
      } else if alternate.Some? && Completes(alternate.value, {}, c, d - 1) {
        CompletesIsOutcome(alternate.value, {}, c, d - 1);
      }
    case While(_, _) => LoopIsOutcome(s, None, {}, labels, c, d);
    case DoWhile(_, test) =>
      LoopIsOutcome(s, Some(test), Interruptions(test) + NormalIf(MayFail(s)), labels, c, d);
    case ForEach(_, _) => LoopIsOutcome(s, None, {}, labels, c, d);
    case For(init, _, update, _) =>
      if init.Some? {
        if Completes(s.(init := None), labels, c, d - 1) {
          CompletesIsOutcome(s.(init := None), labels, c, d - 1);
        }
      } else {
        LoopIsOutcome(s, update, OptionalInterruptions(update), labels, c, d);
      }
    case Switch(_, clauses) =>
      if Selects(clauses, c, d - 1) {
        var k, r :| 0 <= k <= |clauses| && CompletesSeq(clauses[k..], r, d - 1) && c == Caught(r);
        SeqIsOutcome(clauses[k..], r, d - 1);
        SuffixIsClauseOutcome(clauses, k, r);
      }
    case Try(block, handler, finalizer) => TryIsOutcome(s, c, d);
    case Labeled(name, statement) =>
      var r :| Completes(statement, labels + {name}, r, d - 1) && c == Unlabelled(name, r);
      CompletesIsOutcome(statement, labels + {name}, r, d - 1);
    case _ =>
  }

  /** An evaluation that starts the loop again ends as one that has just started. */
  lemma {:induction false} LoopIsOutcome(s: Stmt, tail: Option<Expr>, tails: set<Completion>, labels: set<Label>,
                                         c: Completion, d: nat)
    requires d > 0 && (s.While? || s.DoWhile? || s.For? || s.ForEach?)
    requires OptionalInterruptions(tail) <= tails && (s.DoWhile? && MayFail(s) ==> Normal in tails)
    ensures Iterates(s, tail, labels, c, d - 1) ==>
      c in Outcomes(s, labels) || c in LoopOutcomes(Outcomes(s.loopBody, {}), labels, tails)
    decreases d, 0
  {
    if Iterates(s, tail, labels, c, d - 1) {
      var r :| Completes(s.loopBody, {}, r, d - 1) && EndsOrRepeats(s, r, tail, labels, c, d - 1);
      CompletesIsOutcome(s.loopBody, {}, r, d - 1);
      if Completes(s, labels, c, d - 1) {
        CompletesIsOutcome(s, labels, c, d - 1);
      }
    }
  }

  lemma {:induction false} SeqIsOutcome(body: seq<Stmt>, c: Completion, d: nat)
    requires CompletesSeq(body, c, d)
    ensures c in SeqOutcomes(body)
    decreases d, 2, |body|
  {
    if body != [] {
      if !c.Normal? && Completes(body[0], {}, c, d) {
        CompletesIsOutcome(body[0], {}, c, d);
      } else {
        CompletesIsOutcome(body[0], {}, Normal, d);
        SeqIsOutcome(body[1..], c, d);
      }
    }
  }

  lemma {:induction false} SuffixIsClauseOutcome(clauses: seq<Stmt>, k: nat, r: Completion)
    requires k <= |clauses| && r in SeqOutcomes(clauses[k..])
    ensures Caught(r) in ClauseOutcomes(clauses)
  {
    if k > 0 {
      assert clauses[1..][k - 1..] == clauses[k..];
      SuffixIsClauseOutcome(clauses[1..], k - 1, r);
    } else {
      assert clauses[0..] == clauses;
    }
  }

  lemma {:induction false} TryIsOutcome(s: Stmt, c: Completion, d: nat)
    requires s.Try? && d > 0 && Tries(s.block, s.handler, s.finalizer, c, d - 1)
    ensures c in Outcomes(s, {})
    decreases d, 0
  {
    var b, h :| Completes(s.block, {}, b, d - 1) && Handles(s.handler, b, h, d - 1)
        && Finalizes(s.finalizer, h, c, d - 1);
    CompletesIsOutcome(s.block, {}, b, d - 1);
    if b.Thrown? && s.handler.Some? {
      CompletesIsOutcome(s.handler.value, {}, h, d - 1);
    }
    var handled := HandledOutcomes(Outcomes(s.block, {}), OptionalOutcomes(s.handler));
    assert h in handled;
    if s.finalizer.Some? {
      FinallyIsOutcome(s.finalizer.value, handled, h, c, d - 1);
    }
    assert c in FinalizedOutcomes(handled, OptionalOutcomes(s.finalizer));
  }

  lemma {:induction false} FinallyIsOutcome(finalizer: Stmt, handled: set<Completion>, h: Completion, c: Completion,
                                            d: nat)
    requires h in handled && Finalizes(Some(finalizer), h, c, d)
    ensures c in FinalizedOutcomes(handled, Some(Outcomes(finalizer, {})))
    decreases d, 2
  {
    if c == h && Completes(finalizer, {}, Normal, d) {
      CompletesIsOutcome(finalizer, {}, Normal, d);
    } else {
      CompletesIsOutcome(finalizer, {}, c, d);
    }
  }

  // Every outcome is a completion.

  lemma {:induction false} OutcomeCompletes(s: Stmt, labels: set<Label>, c: Completion) returns (d: nat)
    requires c in Outcomes(s, labels)
    ensures Completes(s, labels, c, d)
    decreases s, 2
  {
    d := 1;
    match s
    case Block(statements) =>
      var e := SeqOutcomeCompletes(statements, c);
      d := e + 1;
    case If(_, consequent, alternate) =>
      if c in Outcomes(consequent, {}) {
        var e := OutcomeCompletes(consequent, {}, c);
        d := e + 1;
      } else if alternate.Some? && c in Outcomes(alternate.value, {}) {
        var e := OutcomeCompletes(alternate.value, {}, c);
        d := e + 1;
      }
    case While(_, _) => d := LoopStatementCompletes(s, labels, c);
    case DoWhile(_, _) => d := LoopStatementCompletes(s, labels, c);
    case For(_, _, _, _) => d := LoopStatementCompletes(s, labels, c);
    case ForEach(_, _) => d := LoopStatementCompletes(s, labels, c);
    case Switch(_, clauses) =>
      if c in ClauseOutcomes(clauses) {
        var k, r, e := ClauseOutcomeCompletes(clauses, c);
        assert Selects(clauses, c, e);
        d := e + 1;
      }
    case Try(block, handler, finalizer) => d := TryOutcomeCompletes(s, c);
    case Labeled(name, statement) =>
      var r :| r in Outcomes(statement, labels + {name}) && c == Unlabelled(name, r);
      var e := OutcomeCompletes(statement, labels + {name}, r);
      d := e + 1;
    case _ =>
  }

  lemma {:induction false} LoopStatementCompletes(s: Stmt, labels: set<Label>, c: Completion) returns (d: nat)
    requires (s.While? || s.DoWhile? || s.For? || s.ForEach?) && c in Outcomes(s, labels)
    ensures Completes(s, labels, c, d)
    decreases s, 1
  {
    if s.For? {
      d := LoopOutcomeCompletes(s.(init := None), s.update, OptionalInterruptions(s.update), labels, c);
      if s.init.Some? {
        assert Completes(s.(init := None), labels, c, d) || OptionalInterrupts(s.init, c);
        d := d + 1;
      }
    } else if s.DoWhile? {
      d := LoopOutcomeCompletes(s, Some(s.test), Interruptions(s.test) + NormalIf(MayFail(s)), labels, c);
    } else {
      d := LoopOutcomeCompletes(s, None, {}, labels, c);
    }
  }

  /** The loop ends in its first iteration, or before it. */
  lemma {:induction false} LoopOutcomeCompletes(s: Stmt, tail: Option<Expr>, tails: set<Completion>,
                                                labels: set<Label>, c: Completion)
    returns (d: nat)
    requires s.While? || s.DoWhile? || s.For? || s.ForEach?
    requires tails == OptionalInterruptions(tail) + if s.DoWhile? then NormalIf(MayFail(s)) else {}
    ensures d > 0 && (c in LoopOutcomes(Outcomes(s.loopBody, {}), labels, tails)
                      ==> Iterates(s, tail, labels, c, d - 1))
    decreases s.loopBody, 3
  {
    d := 1;
    var bodies := Outcomes(s.loopBody, {});
    if c in LoopOutcomes(bodies, labels, tails) {
      var r :| r in bodies && if LoopContinues(r, labels) then c in tails else c == Caught(r);
      var e := OutcomeCompletes(s.loopBody, {}, r);
      assert EndsOrRepeats(s, r, tail, labels, c, e);
      d := e + 1;
    }
  }

  lemma {:induction false} SeqOutcomeCompletes(body: seq<Stmt>, c: Completion) returns (d: nat)
    requires c in SeqOutcomes(body)
    ensures CompletesSeq(body, c, d)
    decreases body, 3
  {
    d := 0;
    if body != [] {
      if !c.Normal? && c in Outcomes(body[0], {}) {
        d := OutcomeCompletes(body[0], {}, c);
      } else {
        var a := OutcomeCompletes(body[0], {}, Normal);
        var b := SeqOutcomeCompletes(body[1..], c);
        d := a + b;
        CompletesHigher(body[0], {}, Normal, a, d);
        SeqHigher(body[1..], c, b, d);
      }
    }
  }

  lemma {:induction false} ClauseOutcomeCompletes(clauses: seq<Stmt>, c: Completion)
    returns (k: nat, r: Completion, d: nat)
    requires c in ClauseOutcomes(clauses)
    ensures k <= |clauses| && CompletesSeq(clauses[k..], r, d) && c == Caught(r)
    decreases clauses, 4
  {
    if r' :| r' in SeqOutcomes(clauses) && c == Caught(r') {
      k, r := 0, r';
      d := SeqOutcomeCompletes(clauses, r);
      assert clauses[0..] == clauses;
    } else {
      k, r, d := ClauseOutcomeCompletes(clauses[1..], c);
      assert clauses[1..][k..] == clauses[k + 1..];
      k := k + 1;
    }
  }

  lemma {:induction false} HandledOutcomeCompletes(s: Stmt, h: Completion) returns (b: Completion, d: nat)
    requires s.Try? && h in HandledOutcomes(Outcomes(s.block, {}), OptionalOutcomes(s.handler))
    ensures Completes(s.block, {}, b, d) && Handles(s.handler, b, h, d)
    decreases s, 0
  {
    var block, handler := s.block, s.handler;
    if h in Outcomes(block, {}) && !(h.Thrown? && handler.Some?) {
      b := h;
      d := OutcomeCompletes(block, {}, b);
    } else {
      b := Thrown;
      var d1 := OutcomeCompletes(block, {}, b);
      var d2 := OutcomeCompletes(handler.value, {}, h);
      d := d1 + d2;
      CompletesHigher(block, {}, b, d1, d);
      CompletesHigher(handler.value, {}, h, d2, d);
    }
  }

  lemma {:induction false} TryOutcomeCompletes(s: Stmt, c: Completion) returns (d: nat)
    requires s.Try? && c in Outcomes(s, {})
    ensures Completes(s, {}, c, d)
    decreases s, 1
  {
    var handled := HandledOutcomes(Outcomes(s.block, {}), OptionalOutcomes(s.handler));
    var normalEnd := s.finalizer.None? || (c in handled && Normal in Outcomes(s.finalizer.value, {}));
    var h := c;
    if !normalEnd {
      h :| h in handled;
    }
    var b, d1 := HandledOutcomeCompletes(s, h);
    var d2 := 0;
    if s.finalizer.Some? {
      d2 := OutcomeCompletes(s.finalizer.value, {}, if normalEnd then Normal else c);
      CompletesHigher(s.finalizer.value, {}, if normalEnd then Normal else c, d2, d1 + d2);
    }
    CompletesHigher(s.block, {}, b, d1, d1 + d2);
    if b.Thrown? && s.handler.Some? {
      CompletesHigher(s.handler.value, {}, h, d1, d1 + d2);
    }
    assert Handles(s.handler, b, h, d1 + d2) && Finalizes(s.finalizer, h, c, d1 + d2);
    assert Tries(s.block, s.handler, s.finalizer, c, d1 + d2);
    d := d1 + d2 + 1;
  }

  lemma OutcomesAreTheCompletions(s: Stmt, labels: set<Label>, c: Completion)
    ensures c in Outcomes(s, labels) <==> CanComplete(s, labels, c)
  {
    if c in Outcomes(s, labels) {
      var d := OutcomeCompletes(s, labels, c);
    } else if d: nat :| Completes(s, labels, c, d) {
      CompletesIsOutcome(s, labels, c, d);
    }
  }

  // ----- exactly when a reported loop completes -----

  /**
    The initialization of a `for` can yield, the body can complete with a `continue` that
    aims beyond the loop, or it can come to an update that can yield.
  */
  predicate HasWayOut(s: Stmt, labels: set<Label>)
    requires TestNeverFails(s)
  {
    var bodies := Outcomes(s.loopBody, {});
    || (s.For? && OptionalInterruptions(s.init) != {})
    || (exists r :: r in bodies && r.Continued? && !LoopContinues(r, labels))
    || (s.For? && OptionalInterruptions(s.update) != {} && SomeContinue(bodies, labels))
  }

  /**
    No evaluation of a reported loop ever completes, whatever its inner conditions, if and only if
    it has no way out.
  */
  lemma ReportedLoopNeverCompletes(s: Stmt, labels: set<Label>)
    requires Reported(s)
    ensures (forall c :: !CanComplete(s, labels, c)) <==> !HasWayOut(s, labels)
  {
    forall c
      ensures c in Outcomes(s, labels) <==> CanComplete(s, labels, c)
    {
      OutcomesAreTheCompletions(s, labels, c);
    }
    forall r | r in Outcomes(s.loopBody, {})
      ensures r.Normal? || r.Continued?
    {
      var d := OutcomeCompletes(s.loopBody, {}, r);
      WithoutEndIsHarmless(s.loopBody, {}, r, d, false);
    }
    WaysOut(s, labels);
  }

  lemma WaysOut(s: Stmt, labels: set<Label>)
    requires TestNeverFails(s) && forall r :: r in Outcomes(s.loopBody, {}) ==> r.Normal? || r.Continued?
    ensures Outcomes(s, labels) != {} <==> HasWayOut(s, labels)
  {
    var bodies := Outcomes(s.loopBody, {});
    var tail := if s.For? then OptionalInterruptions(s.update) else {};
    var head := if s.For? then OptionalInterruptions(s.init) else {};
    assert Outcomes(s, labels) == head + LoopOutcomes(bodies, labels, tail);
    if r :| r in bodies && r.Continued? && !LoopContinues(r, labels) {
      assert Caught(r) in LoopOutcomes(bodies, labels, tail);
    }
  }

  /** Without a `continue` that aims beyond the loop and a `yield` in its head there is no way out. */
  lemma NoEscapeNoWayOut(s: Stmt, labels: set<Label>)
    requires Reported(s) && !HeadMayYield(s) && EscapingContinues(s.loopBody, {}) <= labels
    ensures !HasWayOut(s, labels)
  {
    forall c, d: nat | Completes(s, labels, c, d)
      ensures false
    {
      ReportedLoopCompletion(s, labels, c, d);
    }
    ReportedLoopNeverCompletes(s, labels);
  }

  /** `while (true) { while (true) {} continue outer; }`: the `continue` is there, but nothing ever reaches it. */
  lemma UnreachedContinueIsNoWayOut(outer: Label)
    ensures var s := While(TrueLiteral, Block([While(TrueLiteral, Block([])), Continue(Some(outer))]));
            Reported(s) && outer in EscapingContinues(s.loopBody, {}) && !HasWayOut(s, {})
  {
    var inner := While(TrueLiteral, Block([]));
    var body := [inner, Continue(Some(outer))];
    assert SeqOutcomes([]) == {Normal};
    assert Outcomes(inner, {}) == {};
    assert SeqOutcomes(body) == {};
    assert body[1] in body && outer in EscapingContinues(body[1], {});
  }

  /** `while (true) continue outer;` is reported although it completes. */
  lemma OuterContinueEndsAReportedLoop(outer: Label)
    ensures var s := While(TrueLiteral, Continue(Some(outer)));
            Reported(s) && Completes(s, {}, Continued(Some(outer)), 2)
  {
    var s := While(TrueLiteral, Continue(Some(outer)));
    assert Completes(s.loopBody, {}, Continued(Some(outer)), 1);
    assert EndsOrRepeats(s, Continued(Some(outer)), None, {}, Continued(Some(outer)), 1);
  }

  /** `for (;; yield) {}` is reported although it completes when its generator is asked to return. */
  lemma YieldInHeadEndsAReportedLoop()
    ensures var s := For(None, None, Some(Yield([])), Block([]));
            Reported(s) && Completes(s, {}, Returned, 3)
  {
    var s := For(None, None, Some(Yield([])), Block([]));
    assert CompletesSeq([], Normal, 1);
    assert Completes(s.loopBody, {}, Normal, 2);
    assert EndsOrRepeats(s, Normal, s.update, {}, Returned, 2);
  }
}
