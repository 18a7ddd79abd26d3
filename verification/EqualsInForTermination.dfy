/**
  The rule on equality tests in `for` loops, and its exception for counters that step by
  one towards a literal.  Literals are real numbers; the counter runs over them.
*/
module EqualsInForTermination {
  import opened Wrappers

  datatype Operand = Name(name: string) | Number(value: real) | OtherOperand

  datatype UpdateOperator = Increment | Decrement

  datatype AssignmentOperator = Assign | PlusAssign | MinusAssign | OtherAssign

  datatype Expr =
    | Update(step: UpdateOperator, argument: Operand)
    | Assignment(operator: AssignmentOperator, left: Operand, right: Operand)
    | Sequence(expressions: seq<Expr>)
    | OtherExpr

  datatype Test = Test(operator: string, left: Operand, right: Operand)  // a BinaryExpression

  datatype Init =
    | Declaration(names: seq<string>, values: seq<Option<Operand>>)
    | InitExpr(expr: Expr)
    | InitTest(test: Test)

  datatype Range = Range(start: int, end: int)

  /** A reference to a variable; `captured` when it lies in a function below the scope that declares the variable. */
  datatype Reference = Reference(range: Range, captured: bool)

  /** `variables` maps the declared names to their references. */
  datatype ForStatement = ForStatement(init: Option<Init>, test: Test, update: Expr,
                                       body: Range, variables: map<string, seq<Reference>>)

  // ----- the rule -----

  predicate IsEquality(test: Test) {
    test.operator in ["!=", "==", "!==", "==="]
  }

  predicate IsNotEqual(test: Test) {
    test.operator in ["!==", "!="]
  }

  predicate IsIncDec(e: Expr) {
    e.Assignment? && (e.operator.PlusAssign? || e.operator.MinusAssign?)
  }

  predicate IsUpdateIncDec(e: Expr) {
    IsIncDec(e) || e.Update? || (e.Sequence? && forall x :: x in e.expressions ==> IsUpdateIncDec(x))
  }

  function CounterOf(o: Operand): seq<string> {
    if o.Name? then [o.name] else []
  }

  /** The names pushed by `collectCounters`. */
  function Counters(e: Expr): seq<string>
    decreases e, 0
  {
    if IsIncDec(e) then CounterOf(e.left)
    else if e.Update? then CounterOf(e.argument)
    else if e.Sequence? then CountersOf(e.expressions)
    else []
  }

  function CountersOf(es: seq<Expr>): seq<string>
    decreases es, 0
  {
    if es == [] then [] else Counters(es[0]) + CountersOf(es[1..])
  }

  class StringArray {
    var elements: seq<string>

    constructor ()
      ensures elements == []
    {
      elements := [];
    }
  }

  /** Pushes the updated names, left to right, into the array it is given. */
  method CollectCounters(e: Expr, counters: StringArray)
    modifies counters
    ensures counters.elements == old(counters.elements) + Counters(e)
    decreases e
  {
    if IsIncDec(e) {
      counters.elements := counters.elements + CounterOf(e.left);
    } else if e.Update? {
      counters.elements := counters.elements + CounterOf(e.argument);
    } else if e.Sequence? {
      ghost var pushed := [];
      for k := 0 to |e.expressions|
        invariant counters.elements == old(counters.elements) + pushed
        invariant pushed + CountersOf(e.expressions[k..]) == CountersOf(e.expressions)
      {
        ghost var before := pushed;
        var rest := e.expressions[k..];
        assert rest[1..] == e.expressions[k + 1..];
        CollectCounters(rest[0], counters);
        pushed := before + Counters(rest[0]);
        assert old(counters.elements) + before + Counters(rest[0]) == old(counters.elements) + pushed;
        assert pushed + CountersOf(rest[1..]) == before + CountersOf(rest);
      }
    }
  }

  predicate IsNontrivialConditionException(loop: ForStatement) {
    !loop.test.left.Name? || loop.test.left.name !in Counters(loop.update)
  }

  predicate IsInBody(reference: Range, body: Range) {
    reference.start > body.start && reference.end < body.end
  }

  predicate IsUsedInsideBody(id: Operand, loop: ForStatement) {
    id.Name? && id.name in loop.variables && exists r :: r in loop.variables[id.name] && IsInBody(r.range, loop.body)
  }

  predicate IsUpdateByOne(loop: ForStatement) {
    || (loop.update.Update? && !IsUsedInsideBody(loop.update.argument, loop))
    || (IsIncDec(loop.update) && loop.update.right == Number(1.0) && !IsUsedInsideBody(loop.update.left, loop))
  }

  function CheckForUpdateByOne(loop: ForStatement): int {
    if !IsUpdateByOne(loop) then 0
    else if loop.update.Update? then if loop.update.step.Increment? then 1 else -1
    else if loop.update.operator.PlusAssign? then 1
    else -1
  }

  function GetInteger(o: Operand): Option<real> {
    if o.Number? then Some(o.value) else None
  }

  function InitValue(init: Init): Option<real> {
    match init
    case Declaration(names, values) => if |values| == 1 && values[0].Some? then GetInteger(values[0].value) else None
    case InitExpr(expr) => if expr.Assignment? then GetInteger(expr.right) else None
    case InitTest(test) => if IsNotEqual(test) then GetInteger(test.right) else None
  }

  function Sign(x: real): int {
    if x > 0.0 then 1 else if x < 0.0 then -1 else 0
  }

  predicate IsTrivialIteratorException(loop: ForStatement) {
    && loop.init.Some? && IsNotEqual(loop.test) && CheckForUpdateByOne(loop) != 0
    && InitValue(loop.init.value).Some? && GetInteger(loop.test.right).Some?
    && CheckForUpdateByOne(loop) == Sign(GetInteger(loop.test.right).value - InitValue(loop.init.value).value)
  }

  predicate Reported(loop: ForStatement) {
    && IsEquality(loop.test) && IsUpdateIncDec(loop.update)
    && !IsNontrivialConditionException(loop) && !IsTrivialIteratorException(loop)
  }

  // ----- running a counter loop -----

  /** `init` gives the counter the value `begin`. */
  predicate InitSets(init: Option<Init>, counter: string, begin: real) {
    && init.Some?
    && (init.value == Declaration([counter], [Some(Number(begin))])
        || init.value == InitExpr(Assignment(Assign, Name(counter), Number(begin))))
  }

  /** `for (counter = begin; counter != end; counter steps by one)`. */
  ghost predicate StepsByOne(loop: ForStatement, counter: string, begin: real, end: real) {
    && InitSets(loop.init, counter, begin)
    && IsNotEqual(loop.test) && loop.test.left == Name(counter) && loop.test.right == Number(end)
    && CheckForUpdateByOne(loop) != 0 && Counters(loop.update) == [counter]
  }

  /** The counter after the update expression. */
  function Stepped(update: Expr, x: real): real {
    if update.Update? then if update.step.Increment? then x + 1.0 else x - 1.0
    else if IsIncDec(update) && update.right.Number? then
      if update.operator.PlusAssign? then x + update.right.value else x - update.right.value
    else x
  }

  predicate Within(reference: Range, body: Range) {
    body.start <= reference.start && reference.end <= body.end
  }

  /** The counter is declared, no reference to it is in the body, and none in a function that the body might call. */
  predicate IsLeftAlone(loop: ForStatement, counter: string) {
    && counter in loop.variables
    && forall r :: r in loop.variables[counter] ==> !r.captured && !Within(r.range, loop.body)
  }

  ghost predicate LeavesCounterAlone(body: real -> real) {
    forall x :: body(x) == x
  }

  /** What the body may make of the counter: anything, if there is a reference through which it can be written. */
  ghost predicate BodyEffect(loop: ForStatement, counter: string, body: real -> real) {
    IsLeftAlone(loop, counter) ==> LeavesCounterAlone(body)
  }

  /** The counter when the test is evaluated for the `k`-th time. */
  function CounterAt(loop: ForStatement, body: real -> real, begin: real, k: nat): real {
    if k == 0 then begin else Stepped(loop.update, body(CounterAt(loop, body, begin, k - 1)))
  }

  ghost predicate StopsAfter(loop: ForStatement, body: real -> real, begin: real, end: real, n: nat) {
    CounterAt(loop, body, begin, n) == end && forall k: nat :: k < n ==> CounterAt(loop, body, begin, k) != end
  }

  ghost predicate StopsForEveryBody(loop: ForStatement, counter: string, begin: real, end: real) {
    forall body :: BodyEffect(loop, counter, body) ==> exists n: nat :: StopsAfter(loop, body, begin, end, n)
  }

  function Distance(begin: real, end: real): real {
    if end > begin then end - begin else begin - end
  }

  predicate IsWhole(x: real) {
    x == x.Floor as real
  }

  function Travelled(direction: int, k: nat): real {
    if direction > 0 then k as real else -(k as real)
  }

  lemma {:induction false} CounterIsLinear(loop: ForStatement, counter: string, body: real -> real, begin: real,
                                           end: real, k: nat)
    requires StepsByOne(loop, counter, begin, end) && LeavesCounterAlone(body)
    ensures CounterAt(loop, body, begin, k) == begin + Travelled(CheckForUpdateByOne(loop), k)
  {
    if k > 0 {
      CounterIsLinear(loop, counter, body, begin, end, k - 1);
    }
  }

  /** Which iteration, if any, meets the bound. */
  lemma StopsExactlyWhenStepsAddUp(loop: ForStatement, counter: string, body: real -> real, begin: real, end: real,
                                   n: nat)
    requires StepsByOne(loop, counter, begin, end) && LeavesCounterAlone(body)
    ensures StopsAfter(loop, body, begin, end, n) <==> end - begin == Travelled(CheckForUpdateByOne(loop), n)
  {
    forall k: nat
      ensures CounterAt(loop, body, begin, k) == begin + Travelled(CheckForUpdateByOne(loop), k)
    {
      CounterIsLinear(loop, counter, body, begin, end, k);
    }
  }

  /** A loop let through by the exception stops, after |end - begin| iterations, exactly when that is a whole number. */
  lemma AcceptedLoopStops(loop: ForStatement, counter: string, body: real -> real, begin: real, end: real, n: nat)
    requires StepsByOne(loop, counter, begin, end) && LeavesCounterAlone(body)
    requires IsTrivialIteratorException(loop)
    ensures StopsAfter(loop, body, begin, end, n) <==> n as real == Distance(begin, end)
  {
    StopsExactlyWhenStepsAddUp(loop, counter, body, begin, end, n);
  }

  /** With the same shape but the wrong sign, the loop never stops. */
  lemma DisagreeingLoopNeverStops(loop: ForStatement, counter: string, body: real -> real, begin: real, end: real,
                                  n: nat)
    requires StepsByOne(loop, counter, begin, end) && LeavesCounterAlone(body)
    requires !IsTrivialIteratorException(loop) && begin != end
    ensures CounterAt(loop, body, begin, n) != end
  {
    CounterIsLinear(loop, counter, body, begin, end, n);
  }

  /** For a whole distance the rule is right in both directions: it reports the loops that do not run and then stop. */
  lemma ReportedExactlyWhenItDoesNotArrive(loop: ForStatement, counter: string, body: real -> real,
                                           begin: real, end: real, distance: nat)
    requires StepsByOne(loop, counter, begin, end) && LeavesCounterAlone(body)
    requires distance as real == Distance(begin, end)
    ensures Reported(loop) <==> !exists n: nat :: n > 0 && StopsAfter(loop, body, begin, end, n)
  {
    if IsTrivialIteratorException(loop) {
      AcceptedLoopStops(loop, counter, body, begin, end, distance);
      assert distance > 0;
    } else if n: nat :| n > 0 && StopsAfter(loop, body, begin, end, n) {
      StopsExactlyWhenStepsAddUp(loop, counter, body, begin, end, n);
    }
  }

  // ----- when a loop let through is sure to stop -----

  function Unchanged(): real -> real {
    x => x
  }

  /** A body that takes every step back. */
  function Undo(loop: ForStatement): real -> real {
    x => x - CheckForUpdateByOne(loop) as real
  }

  lemma {:induction false} UndoneCounterStays(loop: ForStatement, counter: string, begin: real, end: real, k: nat)
    requires StepsByOne(loop, counter, begin, end)
    ensures CounterAt(loop, Undo(loop), begin, k) == begin
  {
    if k > 0 {
      UndoneCounterStays(loop, counter, begin, end, k - 1);
    }
  }

  /**
    A loop let through stops whatever its body does, if and only if its counter is declared,
    no reference to it is in the closed range of the body or in a function, and the distance
    is whole.
  */
  lemma AcceptedLoopStopsExactly(loop: ForStatement, counter: string, begin: real, end: real)
    requires StepsByOne(loop, counter, begin, end) && IsTrivialIteratorException(loop)
    ensures StopsForEveryBody(loop, counter, begin, end)
       <==> IsLeftAlone(loop, counter) && IsWhole(Distance(begin, end))
  {
    if IsLeftAlone(loop, counter) {
      forall body, n: nat | BodyEffect(loop, counter, body)
        ensures StopsAfter(loop, body, begin, end, n) <==> n as real == Distance(begin, end)
      {
        AcceptedLoopStops(loop, counter, body, begin, end, n);
      }
      assert BodyEffect(loop, counter, Unchanged());
      if IsWhole(Distance(begin, end)) {
        var n: nat := Distance(begin, end).Floor;
        assert forall body :: BodyEffect(loop, counter, body) ==> StopsAfter(loop, body, begin, end, n);
      } else {
        assert forall n: nat :: !StopsAfter(loop, Unchanged(), begin, end, n);
      }
    } else {
      forall k: nat
        ensures CounterAt(loop, Undo(loop), begin, k) == begin
      {
        UndoneCounterStays(loop, counter, begin, end, k);
      }
      assert BodyEffect(loop, counter, Undo(loop));
    }
  }

  /** The check on ranges misses only references in functions and at an edge of the body, where braces leave none. */
  lemma OnlyEdgesAndFunctionsEscape(loop: ForStatement, counter: string)
    requires counter in loop.variables && Counters(loop.update) == [counter] && CheckForUpdateByOne(loop) != 0
    ensures IsLeftAlone(loop, counter) <==>
      forall r :: r in loop.variables[counter]
        ==> !r.captured && (Within(r.range, loop.body) ==> IsInBody(r.range, loop.body))
  {
    assert !IsUsedInsideBody(Name(counter), loop);
  }

  /**
    The exception looks for references strictly inside the range of the body, and this one
    starts with one: `for (i = 0; i != 10; i++) i--;` is let through and never stops.
  */
  lemma {:induction false} ReferenceAtTheEdgeEscapes(k: nat)
    ensures var loop := CountToTen(Range(26, 30), map["i" := [At(5), At(12), At(21), At(26)]]);
            IsTrivialIteratorException(loop) && CounterAt(loop, x => x - 1.0, 0.0, k) == 0.0
  {
    if k > 0 {
      ReferenceAtTheEdgeEscapes(k - 1);
    }
  }

  /**
    A function that the body calls is not looked into: in
    `let i; const dec = () => { i--; }; for (i = 0; i != 10; i++) { dec(); }`
    the loop is let through and never stops.
  */
  lemma {:induction false} CalledFunctionEscapes(k: nat)
    ensures var loop := CountToTen(Range(61, 71), map["i" := [Reference(Range(27, 28), true), At(40), At(47), At(56)]]);
            IsTrivialIteratorException(loop) && CounterAt(loop, x => x - 1.0, 0.0, k) == 0.0
  {
    if k > 0 {
      CalledFunctionEscapes(k - 1);
    }
  }

  /** `for (i = 0; i != 10; i++)` around a body. */
  function CountToTen(body: Range, variables: map<string, seq<Reference>>): ForStatement {
    ForStatement(Some(InitExpr(Assignment(Assign, Name("i"), Number(0.0)))), Test("!=", Name("i"), Number(10.0)),
                 Update(Increment, Name("i")), body, variables)
  }

  function At(start: int): Reference {
    Reference(Range(start, start + 1), false)
  }

  /**
    References to a counter that is not declared are not found:
    `for (i = 0; i != 10; i++) { i--; }` without a declaration.
  */
  lemma {:induction false} UndeclaredCounterEscapes(k: nat)
    ensures var loop := CountToTen(Range(26, 34), map[]);
            IsTrivialIteratorException(loop) && CounterAt(loop, x => x - 1.0, 0.0, k) == 0.0
  {
    if k > 0 {
      UndeclaredCounterEscapes(k - 1);
    }
  }

  // ----- which loops are reported -----

  /** The updates of a comma expression, however nested. */
  function Parts(e: Expr): seq<Expr>
    decreases e, 0
  {
    if e.Sequence? then PartsOf(e.expressions) else [e]
  }

  function PartsOf(es: seq<Expr>): seq<Expr>
    decreases es, 0
  {
    if es == [] then [] else Parts(es[0]) + PartsOf(es[1..])
  }

  /** `x++`, `x--`, `x += a` or `x -= a` for an operand `x`. */
  predicate StepsOperand(part: Expr, x: Operand) {
    || (part.Update? && part.argument == x)
    || (part.Assignment? && part.operator in [PlusAssign, MinusAssign] && part.left == x)
  }

  predicate IsStep(part: Expr) {
    part.Update? || (part.Assignment? && part.operator in [PlusAssign, MinusAssign])
  }

  lemma {:induction false} EveryPartSteps(e: Expr)
    ensures IsUpdateIncDec(e) <==> forall part :: part in Parts(e) ==> IsStep(part)
    decreases e, 0
  {
    if e.Sequence? {
      EveryPartOfAllSteps(e.expressions);
    } else {
      assert Parts(e) == [e] && e in Parts(e);
      assert forall part :: part in Parts(e) ==> part == e;
      assert IsUpdateIncDec(e) <==> IsStep(e);
    }
  }

  lemma {:induction false} EveryPartOfAllSteps(es: seq<Expr>)
    ensures (forall x :: x in es ==> IsUpdateIncDec(x)) <==> forall part :: part in PartsOf(es) ==> IsStep(part)
    decreases es, 0
  {
    if es != [] {
      EveryPartSteps(es[0]);
      EveryPartOfAllSteps(es[1..]);
    }
  }

  lemma {:induction false} CountersAreStepped(e: Expr, name: string)
    ensures name in Counters(e) <==> exists part :: part in Parts(e) && StepsOperand(part, Name(name))
    decreases e, 1
  {
    if e.Sequence? {
      CountersOfAllAreStepped(e.expressions, name);
    } else {
      assert e in Parts(e);
    }
  }

  lemma {:induction false} CountersOfAllAreStepped(es: seq<Expr>, name: string)
    ensures name in CountersOf(es) <==> exists part :: part in PartsOf(es) && StepsOperand(part, Name(name))
    decreases es, 0
  {
    if es != [] {
      CountersAreStepped(es[0], name);
      CountersOfAllAreStepped(es[1..], name);
    }
  }

  /** The first value that the exception reads off the initialization, whatever it is assigned to. */
  ghost predicate Begins(init: Init, begin: real) {
    || (init.Declaration? && init.values == [Some(Number(begin))])
    || (init.InitExpr? && init.expr.Assignment? && init.expr.right == Number(begin))
    || (init.InitTest? && init.test.operator in ["!=", "!=="] && init.test.right == Number(begin))
  }

  /** A single step of `x` by one, upwards or downwards. */
  predicate StepsByOneTo(update: Expr, x: Operand, upwards: bool) {
    || update == Update(if upwards then Increment else Decrement, x)
    || update == Assignment(if upwards then PlusAssign else MinusAssign, x, Number(1.0))
  }

  /** The loop goes by ones from one literal to another, and nothing is found in its body that is stepped. */
  ghost predicate GoesByOnes(loop: ForStatement) {
    && loop.test.operator in ["!=", "!=="]
    && exists begin, end, x, upwards ::
      && loop.init.Some? && Begins(loop.init.value, begin) && loop.test.right == Number(end)
      && StepsByOneTo(loop.update, x, upwards) && (if upwards then begin < end else end < begin)
      && !IsUsedInsideBody(x, loop)
  }

  lemma ExceptionGoesByOnes(loop: ForStatement)
    ensures IsTrivialIteratorException(loop) <==> GoesByOnes(loop)
  {
    if IsTrivialIteratorException(loop) {
      var begin, end := InitValue(loop.init.value).value, loop.test.right.value;
      var x := if loop.update.Update? then loop.update.argument else loop.update.left;
      var upwards := CheckForUpdateByOne(loop) == 1;
      assert Begins(loop.init.value, begin) && StepsByOneTo(loop.update, x, upwards);
    }
    if GoesByOnes(loop) {
      var begin, end, x, upwards :|
        && loop.init.Some? && Begins(loop.init.value, begin) && loop.test.right == Number(end)
        && StepsByOneTo(loop.update, x, upwards) && (if upwards then begin < end else end < begin)
        && !IsUsedInsideBody(x, loop);
      assert CheckForUpdateByOne(loop) == if upwards then 1 else -1;
      assert InitValue(loop.init.value) == Some(begin);
    }
  }

  /**
    A loop is reported exactly when it tests by equality a name that its update steps, every part
    of the update is a step, and it does not go by ones from one literal to another.
  */
  lemma ReportedExactly(loop: ForStatement)
    ensures Reported(loop) <==>
      && loop.test.operator in ["!=", "==", "!==", "==="] && loop.test.left.Name?
      && (forall part :: part in Parts(loop.update) ==> IsStep(part))
      && (exists part :: part in Parts(loop.update) && StepsOperand(part, loop.test.left))
      && !GoesByOnes(loop)
  {
    EveryPartSteps(loop.update);
    if loop.test.left.Name? {
      CountersAreStepped(loop.update, loop.test.left.name);
    }
    ExceptionGoesByOnes(loop);
  }
}
