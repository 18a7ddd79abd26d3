/**
  The rule on `for` loops whose counter moves away from the bound, over real numbers.
*/
module ForLoopIncrement {
  import opened Wrappers

  datatype Expr =
    | Literal(raw: Option<real>, value: Option<real>)  // Number(raw) and the value; None if no number
    | Identifier(name: string)
    | Unary(operator: string, argument: Expr)
    | Binary(operator: string, left: Expr, right: Expr)
    | Update(operator: string, argument: Expr)
    | Assignment(operator: string, left: Expr, right: Expr)
    | Other

  datatype Increment = Increment(identifier: string, direction: int)

  // ----- the rule -----

  function Sign(x: real): int {
    if x > 0.0 then 1 else if x < 0.0 then -1 else 0
  }

  function DirectionFromValue(e: Expr): int {
    match e
    case Literal(raw, _) => if raw.None? then 0 else Sign(raw.value)
    case Unary(operator, argument) =>
      if operator == "+" then DirectionFromValue(argument)
      else if operator == "-" then -DirectionFromValue(argument)
      else 0
    case _ => 0
  }

  function IncrementOf(e: Expr, direction: int): Option<Increment> {
    if e.Identifier? then Some(Increment(e.name, direction)) else None
  }

  function AssignmentIncrement(lhs: Expr, rhs: Expr): Option<Increment> {
    if lhs.Identifier? && rhs.Binary? && (rhs.operator == "+" || rhs.operator == "-") && rhs.left == lhs then
      var direction := DirectionFromValue(rhs.right);
      IncrementOf(lhs, if rhs.operator == "-" then -direction else direction)
    else None
  }

  function FindInLoopUpdate(update: Expr): Option<Increment> {
    match update
    case Update(operator, argument) => IncrementOf(argument, if operator == "++" then 1 else -1)
    case Assignment(operator, lhs, rhs) =>
      if operator == "+=" then IncrementOf(lhs, DirectionFromValue(rhs))
      else if operator == "-=" then IncrementOf(lhs, -DirectionFromValue(rhs))
      else if operator == "=" then AssignmentIncrement(lhs, rhs)
      else None
    case _ => None
  }

  /** The direction in which the counter must not move, given the test. */
  function GetWrongDirection(test: Expr, counter: string): int {
    if !test.Binary? then 0
    else if test.left == Identifier(counter) then
      if test.operator == "<" || test.operator == "<=" then -1
      else if test.operator == ">" || test.operator == ">=" then 1
      else 0
    else if test.right == Identifier(counter) then
      if test.operator == "<" || test.operator == "<=" then 1
      else if test.operator == ">" || test.operator == ">=" then -1
      else 0
    else 0
  }

  predicate Reported(test: Expr, update: Expr) {
    var increment := FindInLoopUpdate(update);
    && increment.Some?
    && var wrong := GetWrongDirection(test, increment.value.identifier);
       wrong != 0 && wrong == increment.value.direction
  }

  // ----- evaluation -----

  type Env = map<string, real>

  function Eval(e: Expr, env: Env): Option<real> {
    match e
    case Literal(_, value) => value
    case Identifier(name) => if name in env then Some(env[name]) else None
    case Unary(operator, argument) =>
      var v := Eval(argument, env);
      if v.None? then None else if operator == "+" then v else if operator == "-" then Some(-v.value) else None
    case Binary(operator, left, right) =>
      var a, b := Eval(left, env), Eval(right, env);
      if a.None? || b.None? then None
      else if operator == "+" then Some(a.value + b.value)
      else if operator == "-" then Some(a.value - b.value)
      else None
    case _ => None
  }

  predicate Compare(operator: string, a: real, b: real) {
    (operator == "<" && a < b) || (operator == "<=" && a <= b) || (operator == ">" && a > b)
    || (operator == ">=" && a >= b)
  }

  predicate Holds(test: Expr, env: Env) {
    && test.Binary? && Eval(test.left, env).Some? && Eval(test.right, env).Some?
    && Compare(test.operator, Eval(test.left, env).value, Eval(test.right, env).value)
  }

  /** The environment after the update expression, where that is defined. */
  function Exec(update: Expr, env: Env): Option<Env> {
    match update
    case Update(operator, argument) =>
      if argument.Identifier? && argument.name in env then
        Some(env[argument.name := env[argument.name] + if operator == "++" then 1.0 else -1.0])
      else None
    case Assignment(operator, lhs, rhs) =>
      var v := Eval(rhs, env);
      if !lhs.Identifier? || v.None? then None
      else if operator == "=" then Some(env[lhs.name := v.value])
      else if lhs.name !in env then None
      else if operator == "+=" then Some(env[lhs.name := env[lhs.name] + v.value])
      else if operator == "-=" then Some(env[lhs.name := env[lhs.name] - v.value])
      else None
    case _ => None
  }

  /** Reading the raw text of a literal as a number may give another number, but one of the same sign. */
  predicate RawAgrees(e: Expr) {
    match e
    case Literal(raw, value) => raw.Some? ==> value.Some? && Sign(raw.value) == Sign(value.value)
    case Unary(_, argument) => RawAgrees(argument)
    case Binary(_, left, right) => RawAgrees(left) && RawAgrees(right)
    case Update(_, argument) => RawAgrees(argument)
    case Assignment(_, left, right) => RawAgrees(left) && RawAgrees(right)
    case _ => true
  }

  // ----- the verdict -----

  /** Where the rule sees a direction, the step has a value in every environment, with that sign. */
  lemma {:induction false} DirectionIsSign(e: Expr, env: Env)
    requires RawAgrees(e) && DirectionFromValue(e) != 0
    ensures Eval(e, env).Some? && Sign(Eval(e, env).value) == DirectionFromValue(e)
  {
    if e.Unary? {
      DirectionIsSign(e.argument, env);
    }
  }

  lemma UpdateMovesCounter(update: Expr, env: Env, counter: string)
    requires RawAgrees(update) && counter in env
    requires FindInLoopUpdate(update).Some? && FindInLoopUpdate(update).value.identifier == counter
    requires FindInLoopUpdate(update).value.direction != 0
    ensures Exec(update, env).Some? && counter in Exec(update, env).value
    ensures Sign(Exec(update, env).value[counter] - env[counter]) == FindInLoopUpdate(update).value.direction
  {
    if update.Assignment? {
      if update.operator == "=" {
        DirectionIsSign(update.right.right, env);
        assert Eval(update.right.left, env) == Some(env[counter]);
        assert Eval(update.right, env).Some?;
      } else {
        DirectionIsSign(update.right, env);
      }
    }
  }

  /** The side of the test that is not the counter. */
  function Bound(test: Expr, counter: string): Expr
    requires test.Binary?
  {
    if test.left == Identifier(counter) then test.right else test.left
  }

  /**
    The environments in which the test is evaluated: between two of them run a body that leaves
    the counter alone, and the update.
  */
  ghost predicate IsRun(states: seq<Env>, update: Expr, counter: string) {
    forall k :: 0 <= k < |states| - 1 ==> counter in states[k] && FollowsBy(states[k], states[k + 1], update, counter)
  }

  ghost predicate FollowsBy(before: Env, next: Env, update: Expr, counter: string)
    requires counter in before
  {
    exists mid: Env :: counter in mid && mid[counter] == before[counter] && Exec(update, mid) == Some(next)
  }

  /**
    A reported loop whose bound keeps its value and whose body leaves the counter alone
    does not reach its stop condition: a test that holds once holds after every update.
  */
  lemma {:induction false} ReportedTestKeepsHolding(test: Expr, update: Expr, counter: string, states: seq<Env>,
                                                    bound: real, k: nat)
    requires Reported(test, update) && RawAgrees(update) && counter == FindInLoopUpdate(update).value.identifier
    requires k < |states| && IsRun(states, update, counter)
    requires forall j :: 0 <= j < |states| ==>
      counter in states[j] && Eval(Bound(test, counter), states[j]) == Some(bound)
    requires Holds(test, states[0])
    ensures Holds(test, states[k])
    decreases k
  {
    if k > 0 {
      ReportedTestKeepsHolding(test, update, counter, states, bound, k - 1);
      assert FollowsBy(states[k - 1], states[k - 1 + 1], update, counter);
      var mid: Env :| counter in mid && mid[counter] == states[k - 1][counter] && Exec(update, mid) == Some(states[k]);
      UpdateMovesCounter(update, mid, counter);
    }
  }

  // ----- which loops are reported -----

  /** A number with any signs in front. */
  predicate IsSignedLiteral(e: Expr) {
    (e.Literal? && e.raw.Some?) || (e.Unary? && e.operator in ["+", "-"] && IsSignedLiteral(e.argument))
  }

  function SignedValue(e: Expr): real
    requires IsSignedLiteral(e)
  {
    if e.Literal? then e.raw.value else if e.operator == "-" then -SignedValue(e.argument) else SignedValue(e.argument)
  }

  /** The update adds a signed literal to the counter: `i++`, `i--`, `i += a`, `i -= a`, `i = i + a` or `i = i - a`. */
  ghost predicate Adds(update: Expr, counter: string, amount: real) {
    var i := Identifier(counter);
    || (update.Update? && update.argument == i && amount == if update.operator == "++" then 1.0 else -1.0)
    || exists a :: IsSignedLiteral(a) && AddsLiteral(update, i, a, amount)
  }

  predicate AddsLiteral(update: Expr, i: Expr, a: Expr, amount: real)
    requires IsSignedLiteral(a)
  {
    || (update in [Assignment("+=", i, a), Assignment("=", i, Binary("+", i, a))] && amount == SignedValue(a))
    || (update in [Assignment("-=", i, a), Assignment("=", i, Binary("-", i, a))] && amount == -SignedValue(a))
  }

  /** The test holds while the counter is below something. */
  predicate KeepsBelow(test: Expr, counter: string) {
    && test.Binary?
    && (|| (test.left == Identifier(counter) && test.operator in ["<", "<="])
        || (test.left != Identifier(counter) && test.right == Identifier(counter) && test.operator in [">", ">="]))
  }

  /** The test holds while the counter is above something. */
  predicate KeepsAbove(test: Expr, counter: string) {
    && test.Binary?
    && (|| (test.left == Identifier(counter) && test.operator in [">", ">="])
        || (test.left != Identifier(counter) && test.right == Identifier(counter) && test.operator in ["<", "<="]))
  }

  /** The update moves the counter away from where the test keeps it. */
  ghost predicate MovesAway(test: Expr, update: Expr, counter: string, amount: real) {
    && Adds(update, counter, amount)
    && ((amount < 0.0 && KeepsBelow(test, counter)) || (amount > 0.0 && KeepsAbove(test, counter)))
  }

  lemma {:induction false} DirectionOfLiteral(e: Expr)
    ensures IsSignedLiteral(e) ==> DirectionFromValue(e) == Sign(SignedValue(e))
    ensures DirectionFromValue(e) != 0 ==> IsSignedLiteral(e)
  {
    if e.Unary? {
      DirectionOfLiteral(e.argument);
    }
  }

  /**
    A loop is reported exactly when its update takes from a counter that the test keeps below, or
    adds to one kept above.
  */
  lemma ReportedExactly(test: Expr, update: Expr)
    ensures Reported(test, update) <==> exists counter, amount :: MovesAway(test, update, counter, amount)
  {
    if Reported(test, update) {
      StepOfReported(test, update);
    }
    if counter, amount :| MovesAway(test, update, counter, amount) {
      IncrementOfStep(update, counter, amount);
    }
  }

  lemma IncrementOfStep(update: Expr, counter: string, amount: real)
    requires Adds(update, counter, amount)
    ensures FindInLoopUpdate(update) == Some(Increment(counter, Sign(amount)))
  {
    if !update.Update? {
      var a :| IsSignedLiteral(a) && AddsLiteral(update, Identifier(counter), a, amount);
      DirectionOfLiteral(a);
    }
  }

  /** The literal that an update adds, if it is an assignment. */
  function Added(update: Expr): Expr
    requires update.Assignment?
  {
    if update.operator == "=" && update.right.Binary? then update.right.right else update.right
  }

  lemma StepOfReported(test: Expr, update: Expr)
    requires Reported(test, update)
    ensures exists counter, amount :: MovesAway(test, update, counter, amount)
  {
    var increment := FindInLoopUpdate(update).value;
    var counter, amount := increment.identifier, 0.0;
    if update.Update? {
      amount := if update.operator == "++" then 1.0 else -1.0;
      assert Adds(update, counter, amount);
    } else {
      var a := Added(update);
      DirectionOfLiteral(a);
      var minus := update.operator == "-=" || (update.operator == "=" && update.right.operator == "-");
      amount := if minus then -SignedValue(a) else SignedValue(a);
      assert AddsLiteral(update, Identifier(counter), a, amount);
      assert Adds(update, counter, amount);
    }
    IncrementOfStep(update, counter, amount);
    assert MovesAway(test, update, counter, amount);
  }
}
