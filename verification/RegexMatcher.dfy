/**
  Regular expressions without captures and backreferences, as the parser hands them
  to the rules, with two matchers.

  `MatchAlternatives` follows the continuation style of section 22.2.2 of ECMA-262
  (14th edition), with RepeatMatcher of section 22.2.2.3.1: an optional iteration that
  consumes nothing is refused.  `AlternativesEnds` lists every end position in priority
  order.  `ContinuationTakesFirstAccepted` proves that the two agree for every
  continuation, so the rules may be judged on the ordered lists.
*/
module RegexMatcher {
  import opened Wrappers

  datatype Alternative = Alternative(elements: seq<Element>)

  datatype Element =
    | Character(chars: set<char>)  // one character out of a class; a single character is a singleton
    | Group(alternatives: seq<Alternative>)
    | Quantifier(element: Element, min: nat, max: Option<nat>, greedy: bool)
    | Assertion(kind: AssertionKind)

  datatype AssertionKind =
    | Start
    | End
    | Word(negate: bool)
    | Lookaround(ahead: bool, negate: bool, alternatives: seq<Alternative>)

  /** Decides a zero-width assertion at a position of the input; every matcher is parametric in it. */
  type Oracle = (AssertionKind, string, nat) -> bool

  type Continuation = nat -> Option<nat>

  // ----- ordered lists of end positions -----

  function FlatMap<A, B>(xs: seq<A>, f: A -> seq<B>): seq<B> {
    if xs == [] then [] else f(xs[0]) + FlatMap(xs[1..], f)
  }

  function FirstAccepted<A>(xs: seq<nat>, c: nat -> Option<A>): Option<A> {
    if xs == [] then None
    else if c(xs[0]).Some? then c(xs[0])
    else FirstAccepted(xs[1..], c)
  }

  function Pred(n: nat): nat {
    if n == 0 then 0 else n - 1
  }

  function PredBound(max: Option<nat>): Option<nat> {
    if max.Some? then Some(Pred(max.value)) else None
  }

  function ElementEnds(e: Element, s: string, i: nat, env: Oracle): seq<nat>
    requires i <= |s|
    decreases e, 0, 0, 0
  {
    match e
    case Character(cs) => if i < |s| && s[i] in cs then [i + 1] else []
    case Assertion(kind) => if env(kind, s, i) then [i] else []
    case Group(alternatives) => AlternativesEnds(alternatives, s, i, env)
    case Quantifier(body, min, max, greedy) => RepeatEnds(body, min, max, greedy, s, i, env)
  }

  function RepeatEnds(body: Element, min: nat, max: Option<nat>, greedy: bool,
                      s: string, i: nat, env: Oracle): seq<nat>
    requires i <= |s|
    decreases body, 1, min, |s| - i
  {
    if max == Some(0) then [i] else
      var f := (y: nat) =>
        if y < i || |s| < y || (min == 0 && y == i) then []
        else RepeatEnds(body, Pred(min), PredBound(max), greedy, s, y, env);
      var more := FlatMap(ElementEnds(body, s, i, env), f);
      if min != 0 then more
      else if greedy then more + [i]
      else [i] + more
  }

  function ElementsEnds(es: seq<Element>, s: string, i: nat, env: Oracle): seq<nat>
    requires i <= |s|
    decreases es, 0, 0, 0
  {
    if es == [] then [i] else
      var f := (y: nat) => if y < i || |s| < y then [] else ElementsEnds(es[1..], s, y, env);
      FlatMap(ElementEnds(es[0], s, i, env), f)
  }

  function AlternativesEnds(alts: seq<Alternative>, s: string, i: nat, env: Oracle): seq<nat>
    requires i <= |s|
    decreases alts, 0, 0, 0
  {
    if alts == [] then []
    else ElementsEnds(alts[0].elements, s, i, env) + AlternativesEnds(alts[1..], s, i, env)
  }

  // ----- the continuation matcher -----

  function MatchElement(e: Element, s: string, i: nat, env: Oracle, c: Continuation): Option<nat>
    requires i <= |s|
    decreases e, 0, 0, 0
  {
    match e
    case Character(cs) => if i < |s| && s[i] in cs then c(i + 1) else None
    case Assertion(kind) => if env(kind, s, i) then c(i) else None
    case Group(alternatives) => MatchAlternatives(alternatives, s, i, env, c)
    case Quantifier(body, min, max, greedy) => MatchRepeat(body, min, max, greedy, s, i, env, c)
  }

  /** RepeatMatcher.  The first two disjuncts in `d` never hold: a matcher only moves forward within the input. */
  function MatchRepeat(body: Element, min: nat, max: Option<nat>, greedy: bool,
                       s: string, i: nat, env: Oracle, c: Continuation): Option<nat>
    requires i <= |s|
    decreases body, 1, min, |s| - i
  {
    if max == Some(0) then c(i) else
      var d := (y: nat) =>
        if y < i || |s| < y || (min == 0 && y == i) then None
        else MatchRepeat(body, Pred(min), PredBound(max), greedy, s, y, env, c);
      if min != 0 then MatchElement(body, s, i, env, d)
      else if !greedy then
        var z := c(i);
        if z.Some? then z else MatchElement(body, s, i, env, d)
      else
        var z := MatchElement(body, s, i, env, d);
        if z.Some? then z else c(i)
  }

  function MatchElements(es: seq<Element>, s: string, i: nat, env: Oracle, c: Continuation): Option<nat>
    requires i <= |s|
    decreases es, 0, 0, 0
  {
    if es == [] then c(i) else
      var d := (y: nat) => if y < i || |s| < y then None else MatchElements(es[1..], s, y, env, c);
      MatchElement(es[0], s, i, env, d)
  }

  function MatchAlternatives(alts: seq<Alternative>, s: string, i: nat, env: Oracle, c: Continuation): Option<nat>
    requires i <= |s|
    decreases alts, 0, 0, 0
  {
    if alts == [] then None else
      var z := MatchElements(alts[0].elements, s, i, env, c);
      if z.Some? then z else MatchAlternatives(alts[1..], s, i, env, c)
  }

  const Accept: Continuation := (y: nat) => Some(y)

  /** RegExpBuiltinExec: the leftmost start from `i` on, with the end the pattern prefers there. */
  function Search(alts: seq<Alternative>, s: string, i: nat, env: Oracle): Option<(nat, nat)>
    requires i <= |s|
    decreases |s| - i
  {
    var z := MatchAlternatives(alts, s, i, env, Accept);
    if z.Some? then Some((i, z.value))
    else if i == |s| then None
    else Search(alts, s, i + 1, env)
  }

  // ----- the two matchers agree -----

  lemma {:induction false} FirstAcceptedAppend<A>(xs: seq<nat>, ys: seq<nat>, c: nat -> Option<A>)
    ensures FirstAccepted(xs + ys, c)
         == if FirstAccepted(xs, c).Some? then FirstAccepted(xs, c) else FirstAccepted(ys, c)
  {
    if xs == [] {
      assert xs + ys == ys;
    } else {
      assert (xs + ys)[1..] == xs[1..] + ys;
      FirstAcceptedAppend(xs[1..], ys, c);
    }
  }

  /** Trying the ends of a composite one after the other is trying each inner list through a continuation. */
  lemma {:induction false} FirstAcceptedFlatMap<A>(xs: seq<nat>, f: nat -> seq<nat>, c: nat -> Option<A>,
                                                   d: nat -> Option<A>)
    requires forall k :: 0 <= k < |xs| ==> d(xs[k]) == FirstAccepted(f(xs[k]), c)
    ensures FirstAccepted(FlatMap(xs, f), c) == FirstAccepted(xs, d)
  {
    if xs != [] {
      FirstAcceptedAppend(f(xs[0]), FlatMap(xs[1..], f), c);
      assert d(xs[0]) == FirstAccepted(f(xs[0]), c);
      FirstAcceptedFlatMap(xs[1..], f, c, d);
    }
  }

  lemma {:induction false} ElementTakesFirstAccepted(e: Element, s: string, i: nat, env: Oracle, c: Continuation)
    requires i <= |s|
    ensures MatchElement(e, s, i, env, c) == FirstAccepted(ElementEnds(e, s, i, env), c)
    decreases e, 0, 0, 0
  {
    match e
    case Character(_) =>
    case Assertion(_) =>
    case Group(alternatives) => ContinuationTakesFirstAccepted(alternatives, s, i, env, c);
    case Quantifier(body, min, max, greedy) => RepeatTakesFirstAccepted(body, min, max, greedy, s, i, env, c);
  }

  lemma {:induction false} RepeatTakesFirstAccepted(body: Element, min: nat, max: Option<nat>, greedy: bool,
                                                    s: string, i: nat, env: Oracle, c: Continuation)
    requires i <= |s|
    ensures MatchRepeat(body, min, max, greedy, s, i, env, c)
         == FirstAccepted(RepeatEnds(body, min, max, greedy, s, i, env), c)
    decreases body, 1, min, |s| - i
  {
    if max != Some(0) {
      var f := (y: nat) =>
        if y < i || |s| < y || (min == 0 && y == i) then []
        else RepeatEnds(body, Pred(min), PredBound(max), greedy, s, y, env);
      var d := (y: nat) =>
        if y < i || |s| < y || (min == 0 && y == i) then None
        else MatchRepeat(body, Pred(min), PredBound(max), greedy, s, y, env, c);
      var ys := ElementEnds(body, s, i, env);
      forall k | 0 <= k < |ys|
        ensures d(ys[k]) == FirstAccepted(f(ys[k]), c)
      {
        if i <= ys[k] <= |s| && (min != 0 || ys[k] != i) {
          RepeatTakesFirstAccepted(body, Pred(min), PredBound(max), greedy, s, ys[k], env, c);
        }
      }
      ElementTakesFirstAccepted(body, s, i, env, d);
      FirstAcceptedFlatMap(ys, f, c, d);
      FirstAcceptedAppend([i], FlatMap(ys, f), c);
      FirstAcceptedAppend(FlatMap(ys, f), [i], c);
    }
  }

  lemma {:induction false} ElementsTakeFirstAccepted(es: seq<Element>, s: string, i: nat, env: Oracle, c: Continuation)
    requires i <= |s|
    ensures MatchElements(es, s, i, env, c) == FirstAccepted(ElementsEnds(es, s, i, env), c)
    decreases es, 0, 0, 0
  {
    if es != [] {
      var f := (y: nat) => if y < i || |s| < y then [] else ElementsEnds(es[1..], s, y, env);
      var d := (y: nat) => if y < i || |s| < y then None else MatchElements(es[1..], s, y, env, c);
      var ys := ElementEnds(es[0], s, i, env);
      forall k | 0 <= k < |ys|
        ensures d(ys[k]) == FirstAccepted(f(ys[k]), c)
      {
        if i <= ys[k] <= |s| {
          ElementsTakeFirstAccepted(es[1..], s, ys[k], env, c);
        }
      }
      ElementTakesFirstAccepted(es[0], s, i, env, d);
      FirstAcceptedFlatMap(ys, f, c, d);
    }
  }

  lemma {:induction false} ContinuationTakesFirstAccepted(alts: seq<Alternative>, s: string, i: nat, env: Oracle,
                                                          c: Continuation)
    requires i <= |s|
    ensures MatchAlternatives(alts, s, i, env, c) == FirstAccepted(AlternativesEnds(alts, s, i, env), c)
    decreases alts, 0, 0, 0
  {
    if alts != [] {
      ElementsTakeFirstAccepted(alts[0].elements, s, i, env, c);
      ContinuationTakesFirstAccepted(alts[1..], s, i, env, c);
      FirstAcceptedAppend(ElementsEnds(alts[0].elements, s, i, env), AlternativesEnds(alts[1..], s, i, env), c);
    }
  }

  // ----- laws of FlatMap that the rules need -----

  lemma {:induction false} FlatMapCongruence<A, B>(xs: seq<A>, f: A -> seq<B>, g: A -> seq<B>)
    requires forall k :: 0 <= k < |xs| ==> f(xs[k]) == g(xs[k])
    ensures FlatMap(xs, f) == FlatMap(xs, g)
  {
    if xs != [] {
      FlatMapCongruence(xs[1..], f, g);
    }
  }

  lemma {:induction false} FlatMapAppend<A, B>(xs: seq<A>, ys: seq<A>, f: A -> seq<B>)
    ensures FlatMap(xs + ys, f) == FlatMap(xs, f) + FlatMap(ys, f)
  {
    if xs == [] {
      assert xs + ys == ys;
    } else {
      assert (xs + ys)[1..] == xs[1..] + ys;
      FlatMapAppend(xs[1..], ys, f);
    }
  }

  lemma {:induction false} FlatMapAssociative<A, B, C>(xs: seq<A>, f: A -> seq<B>, g: B -> seq<C>, h: A -> seq<C>)
    requires forall k :: 0 <= k < |xs| ==> h(xs[k]) == FlatMap(f(xs[k]), g)
    ensures FlatMap(FlatMap(xs, f), g) == FlatMap(xs, h)
  {
    if xs != [] {
      FlatMapAppend(f(xs[0]), FlatMap(xs[1..], f), g);
      FlatMapAssociative(xs[1..], f, g, h);
    }
  }

  lemma {:induction false} InFlatMap<A, B>(xs: seq<A>, f: A -> seq<B>, y: B)
    ensures y in FlatMap(xs, f) <==> exists k :: 0 <= k < |xs| && y in f(xs[k])
  {
    if xs != [] {
      InFlatMap(xs[1..], f, y);
      if y in FlatMap(xs, f) && y !in f(xs[0]) {
        var k :| 0 <= k < |xs[1..]| && y in f(xs[1..][k]);
        assert y in f(xs[k + 1]);
      }
      if k :| 0 <= k < |xs| && y in f(xs[k]) {
        assert k == 0 || xs[k] == xs[1..][k - 1];
      }
    }
  }

  /** What follows one iteration that ended at `y`. */
  function Iterate(body: Element, min: nat, max: Option<nat>, greedy: bool, s: string, i: nat,
                   env: Oracle): nat -> seq<nat>
    requires i <= |s|
  {
    (y: nat) =>
      if y < i || |s| < y || (min == 0 && y == i) then []
      else RepeatEnds(body, Pred(min), PredBound(max), greedy, s, y, env)
  }

  lemma RepeatEndsUnfold(body: Element, min: nat, max: Option<nat>, greedy: bool, s: string, i: nat, env: Oracle)
    requires i <= |s| && max != Some(0)
    ensures RepeatEnds(body, min, max, greedy, s, i, env)
         == (if min == 0 && !greedy then [i] else [])
          + FlatMap(ElementEnds(body, s, i, env), Iterate(body, min, max, greedy, s, i, env))
          + (if min == 0 && greedy then [i] else [])
  {
    var f := (y: nat) =>
      if y < i || |s| < y || (min == 0 && y == i) then []
      else RepeatEnds(body, Pred(min), PredBound(max), greedy, s, y, env);
    FlatMapCongruence(ElementEnds(body, s, i, env), f, Iterate(body, min, max, greedy, s, i, env));
  }

  /** Elements match in sequence: a split list goes through its first half, then its second. */
  lemma {:induction false} ElementsEndsAppend(es: seq<Element>, rest: seq<Element>, s: string, i: nat, env: Oracle,
                                              f: nat -> seq<nat>)
    requires i <= |s|
    requires forall y: nat :: y <= |s| ==> f(y) == ElementsEnds(rest, s, y, env)
    ensures ElementsEnds(es + rest, s, i, env) == FlatMap(ElementsEnds(es, s, i, env), f)
    decreases |es|
  {
    if es == [] {
      assert es + rest == rest;
    } else {
      assert (es + rest)[1..] == es[1..] + rest;
      var g := (y: nat) => if y < i || |s| < y then [] else ElementsEnds(es[1..], s, y, env);
      var h := (y: nat) => if y < i || |s| < y then [] else ElementsEnds(es[1..] + rest, s, y, env);
      var ys := ElementEnds(es[0], s, i, env);
      forall k | 0 <= k < |ys|
        ensures h(ys[k]) == FlatMap(g(ys[k]), f)
      {
        if i <= ys[k] <= |s| {
          ElementsEndsAppend(es[1..], rest, s, ys[k], env, f);
        }
      }
      FlatMapAssociative(ys, g, f, h);
      var h' := (y: nat) => if y < i || |s| < y then [] else ElementsEnds((es + rest)[1..], s, y, env);
      FlatMapCongruence(ys, h, h');
    }
  }

  // ----- a matcher only moves forward within the input -----

  predicate Within(ends: seq<nat>, i: nat, n: nat) {
    forall k :: 0 <= k < |ends| ==> i <= ends[k] <= n
  }

  lemma {:induction false} FlatMapWithin(xs: seq<nat>, f: nat -> seq<nat>, i: nat, n: nat)
    requires forall k :: 0 <= k < |xs| ==> Within(f(xs[k]), i, n)
    ensures Within(FlatMap(xs, f), i, n)
  {
    if xs != [] {
      assert Within(f(xs[0]), i, n);
      FlatMapWithin(xs[1..], f, i, n);
    }
  }

  lemma {:induction false} ElementEndsWithin(e: Element, s: string, i: nat, env: Oracle)
    requires i <= |s|
    ensures Within(ElementEnds(e, s, i, env), i, |s|)
    decreases e, 0, 0, 0
  {
    match e
    case Character(_) =>
    case Assertion(_) =>
    case Group(alternatives) => AlternativesEndsWithin(alternatives, s, i, env);
    case Quantifier(body, min, max, greedy) => RepeatEndsWithin(body, min, max, greedy, s, i, env);
  }

  lemma {:induction false} RepeatEndsWithin(body: Element, min: nat, max: Option<nat>, greedy: bool, s: string,
                                            i: nat, env: Oracle)
    requires i <= |s|
    ensures Within(RepeatEnds(body, min, max, greedy, s, i, env), i, |s|)
    decreases body, 1, min, |s| - i
  {
    if max != Some(0) {
      var ys, f := ElementEnds(body, s, i, env), Iterate(body, min, max, greedy, s, i, env);
      forall k | 0 <= k < |ys|
        ensures Within(f(ys[k]), i, |s|)
      {
        if i <= ys[k] <= |s| && (min != 0 || ys[k] != i) {
          RepeatEndsWithin(body, Pred(min), PredBound(max), greedy, s, ys[k], env);
        }
      }
      FlatMapWithin(ys, f, i, |s|);
      RepeatEndsUnfold(body, min, max, greedy, s, i, env);
    }
  }

  lemma {:induction false} ElementsEndsWithin(es: seq<Element>, s: string, i: nat, env: Oracle)
    requires i <= |s|
    ensures Within(ElementsEnds(es, s, i, env), i, |s|)
    decreases es, 0, 0, 0
  {
    if es != [] {
      var f := (y: nat) => if y < i || |s| < y then [] else ElementsEnds(es[1..], s, y, env);
      var ys := ElementEnds(es[0], s, i, env);
      forall k | 0 <= k < |ys|
        ensures Within(f(ys[k]), i, |s|)
      {
        if i <= ys[k] <= |s| {
          ElementsEndsWithin(es[1..], s, ys[k], env);
        }
      }
      FlatMapWithin(ys, f, i, |s|);
    }
  }

  lemma {:induction false} AlternativesEndsWithin(alts: seq<Alternative>, s: string, i: nat, env: Oracle)
    requires i <= |s|
    ensures Within(AlternativesEnds(alts, s, i, env), i, |s|)
    decreases alts, 0, 0, 0
  {
    if alts != [] {
      ElementsEndsWithin(alts[0].elements, s, i, env);
      AlternativesEndsWithin(alts[1..], s, i, env);
    }
  }
}
