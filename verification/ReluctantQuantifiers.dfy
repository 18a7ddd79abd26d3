/**
  The rule on reluctant quantifiers at the tail of an alternative.  Each of its verdicts
  is read as an edit of the pattern, and the edited pattern is proved to find the same
  match in every input.
*/
module ReluctantQuantifiers {
  import opened Wrappers
  import opened RegexMatcher

  datatype Verdict =
    | Silent
    | OnlyMin(index: nat)          // "will only ever match `min` repetitions"
    | NeedlesslyLazy(index: nat)   // "unnecessarily reluctant": the '?' may go

  predicate IsLazy(e: Element) {
    e.Quantifier? && !e.greedy
  }

  function CheckElements(elements: seq<Element>): (v: Verdict)
    ensures !v.Silent? ==> v.index < |elements| && IsLazy(elements[v.index])
  {
    var n := |elements|;
    if n == 0 then Silent
    else if IsLazy(elements[n - 1]) then OnlyMin(n - 1)
    else if n == 1 then Silent
    else if IsLazy(elements[n - 2]) then
      if elements[n - 1] == Assertion(End) then NeedlesslyLazy(n - 2)
      else if elements[n - 1].Quantifier? && elements[n - 1].min == 0 then OnlyMin(n - 2)
      else Silent
    else Silent
  }

  function Exactly(q: Element): Element
    requires q.Quantifier?
  {
    q.(max := Some(q.min))
  }

  /** The alternative with its verdict carried out. */
  function Fix(elements: seq<Element>): seq<Element> {
    match CheckElements(elements)
    case Silent => elements
    case OnlyMin(k) => elements[k := Exactly(elements[k])]
    case NeedlesslyLazy(k) => elements[k := elements[k].(greedy := true)]
  }

  function FixPattern(alts: seq<Alternative>): seq<Alternative> {
    if alts == [] then [] else [Alternative(Fix(alts[0].elements))] + FixPattern(alts[1..])
  }

  /** The parser refuses bounds in the wrong order, so `min <= max` holds of every quantifier a rule sees. */
  predicate BoundsInOrder(e: Element) {
    e.Quantifier? && e.max.Some? ==> e.min <= e.max.value
  }

  predicate WellFormed(alts: seq<Alternative>) {
    forall a, e :: a in alts && e in a.elements ==> BoundsInOrder(e)
  }

  predicate IsLineTerminator(c: char) {
    c == '\n' || c == '\r' || c as int == 0x2028 || c as int == 0x2029
  }

  /** `$` at position `j`, without and with the multiline flag. */
  predicate EndHolds(multiline: bool, s: string, j: nat) {
    j == |s| || (multiline && j < |s| && IsLineTerminator(s[j]))
  }

  ghost predicate Respects(env: Oracle, multiline: bool) {
    forall s: string, j: nat :: env(End, s, j) <==> EndHolds(multiline, s, j)
  }

  function Head(xs: seq<nat>): Option<nat> {
    if xs == [] then None else Some(xs[0])
  }

  // ----- only the first end matters -----

  lemma {:induction false} HeadFlatMap(xs: seq<nat>, f: nat -> seq<nat>, g: nat -> seq<nat>)
    requires forall k :: 0 <= k < |xs| ==> Head(f(xs[k])) == Head(g(xs[k]))
    ensures Head(FlatMap(xs, f)) == Head(FlatMap(xs, g))
  {
    if xs != [] {
      assert Head(f(xs[0])) == Head(g(xs[0]));
      HeadFlatMap(xs[1..], f, g);
    }
  }

  /** Which end a lazy repetition offers first does not depend on its upper bound. */
  lemma {:induction false} LazyIgnoresUpperBound(body: Element, min: nat, max: Option<nat>, max': Option<nat>,
                                                 s: string, i: nat, env: Oracle)
    requires i <= |s|
    requires max.Some? ==> min <= max.value
    requires max'.Some? ==> min <= max'.value
    ensures Head(RepeatEnds(body, min, max, false, s, i, env)) == Head(RepeatEnds(body, min, max', false, s, i, env))
    decreases min
  {
    if min != 0 {
      var ys := ElementEnds(body, s, i, env);
      var f, g := Iterate(body, min, max, false, s, i, env), Iterate(body, min, max', false, s, i, env);
      forall k | 0 <= k < |ys|
        ensures Head(f(ys[k])) == Head(g(ys[k]))
      {
        if i <= ys[k] <= |s| {
          LazyIgnoresUpperBound(body, min - 1, PredBound(max), PredBound(max'), s, ys[k], env);
        }
      }
      HeadFlatMap(ys, f, g);
      RepeatEndsUnfold(body, min, max, false, s, i, env);
      RepeatEndsUnfold(body, min, max', false, s, i, env);
      assert RepeatEnds(body, min, max, false, s, i, env) == [] + FlatMap(ys, f) + [] == FlatMap(ys, f);
      assert RepeatEnds(body, min, max', false, s, i, env) == [] + FlatMap(ys, g) + [] == FlatMap(ys, g);
    }
  }

  /** Lazy and greedy repetition reach the same end positions. */
  lemma {:induction false} LazyReachesLikeGreedy(body: Element, min: nat, max: Option<nat>, s: string, i: nat,
                                                 env: Oracle, e: nat)
    requires i <= |s|
    ensures e in RepeatEnds(body, min, max, false, s, i, env) <==> e in RepeatEnds(body, min, max, true, s, i, env)
    decreases min, |s| - i
  {
    if max != Some(0) {
      var ys := ElementEnds(body, s, i, env);
      var f, g := Iterate(body, min, max, false, s, i, env), Iterate(body, min, max, true, s, i, env);
      RepeatEndsUnfold(body, min, max, false, s, i, env);
      RepeatEndsUnfold(body, min, max, true, s, i, env);
      forall k | 0 <= k < |ys|
        ensures e in f(ys[k]) <==> e in g(ys[k])
      {
        if i <= ys[k] <= |s| && (min != 0 || ys[k] != i) {
          LazyReachesLikeGreedy(body, Pred(min), PredBound(max), s, ys[k], env, e);
        }
      }
      InFlatMap(ys, f, e);
      InFlatMap(ys, g, e);
    }
  }

  // ----- the three tails -----

  lemma {:induction false} SingletonEnds(e: Element, s: string, i: nat, env: Oracle)
    requires i <= |s|
    ensures ElementsEnds([e], s, i, env) == ElementEnds(e, s, i, env)
  {
    var f := (y: nat) => if y < i || |s| < y then [] else ElementsEnds([e][1..], s, y, env);
    var ys := ElementEnds(e, s, i, env);
    var unit := (y: nat) => [y];
    ElementEndsWithin(e, s, i, env);
    FlatMapCongruence(ys, f, unit);
    FlatMapUnit(ys);
  }

  lemma {:induction false} FlatMapUnit(xs: seq<nat>)
    ensures FlatMap(xs, (y: nat) => [y]) == xs
  {
    var unit := (y: nat) => [y];
    if xs != [] {
      FlatMapUnit(xs[1..]);
      FlatMapCongruence(xs[1..], unit, (y: nat) => [y]);
      FlatMapCongruence(xs, unit, (y: nat) => [y]);
      assert FlatMap(xs, unit) == [xs[0]] + FlatMap(xs[1..], unit);
    }
  }

  function Then(e: Element, s: string, env: Oracle): nat -> seq<nat> {
    (y: nat) => if |s| < y then [] else ElementEnds(e, s, y, env)
  }

  lemma {:induction false} PairEnds(q: Element, e: Element, s: string, i: nat, env: Oracle)
    requires i <= |s|
    ensures ElementsEnds([q, e], s, i, env) == FlatMap(ElementEnds(q, s, i, env), Then(e, s, env))
  {
    assert [q] + [e] == [q, e];
    forall y: nat | y <= |s|
      ensures Then(e, s, env)(y) == ElementsEnds([e], s, y, env)
    {
      SingletonEnds(e, s, y, env);
    }
    ElementsEndsAppend([q], [e], s, i, env, Then(e, s, env));
    SingletonEnds(q, s, i, env);
  }

  lemma OptionalOffersSomething(e: Element, s: string, i: nat, env: Oracle)
    requires i <= |s| && e.Quantifier? && e.min == 0
    ensures ElementEnds(e, s, i, env) != []
  {
  }

  lemma {:induction false} BeforeOptional(q: Element, r: Element, s: string, i: nat, env: Oracle)
    requires i <= |s| && IsLazy(q) && BoundsInOrder(q)
    requires r.Quantifier? && r.min == 0
    ensures Head(ElementsEnds([Exactly(q), r], s, i, env)) == Head(ElementsEnds([q, r], s, i, env))
  {
    PairEnds(q, r, s, i, env);
    PairEnds(Exactly(q), r, s, i, env);
    LazyIgnoresUpperBound(q.element, q.min, q.max, Some(q.min), s, i, env);
    var xs, ys := ElementEnds(q, s, i, env), ElementEnds(Exactly(q), s, i, env);
    assert Head(xs) == Head(ys);
    ElementEndsWithin(q, s, i, env);
    if xs != [] {
      OptionalOffersSomething(r, s, xs[0], env);
    }
  }

  /** Where `$` holds, the element can only match the empty text. */
  ghost predicate StopsAtEnd(body: Element, s: string, env: Oracle) {
    forall p: nat, y :: p <= |s| && env(End, s, p) && y in ElementEnds(body, s, p, env) ==> y == p
  }

  lemma {:induction false} FlatMapNothing(xs: seq<nat>, f: nat -> seq<nat>)
    requires forall k :: 0 <= k < |xs| ==> f(xs[k]) == []
    ensures FlatMap(xs, f) == []
  {
    if xs != [] {
      FlatMapNothing(xs[1..], f);
    }
  }

  /**
    The ends of a repetition at which `$` holds: its own start, if no iteration is needed, and
    those behind an iteration.
  */
  lemma EndsBeforeEnd(body: Element, min: nat, max: Option<nat>, greedy: bool, s: string, i: nat, env: Oracle,
                      h: nat -> seq<nat>)
    requires i <= |s| && max != Some(0) && StopsAtEnd(body, s, env)
    requires forall y :: h(y) == FlatMap(Iterate(body, min, max, greedy, s, i, env)(y), Then(Assertion(End), s, env))
    ensures FlatMap(RepeatEnds(body, min, max, greedy, s, i, env), Then(Assertion(End), s, env))
         == if min == 0 && env(End, s, i) then [i] else FlatMap(ElementEnds(body, s, i, env), h)
  {
    var atEnd, ys, f := Then(Assertion(End), s, env), ElementEnds(body, s, i, env),
        Iterate(body, min, max, greedy, s, i, env);
    RepeatEndsUnfold(body, min, max, greedy, s, i, env);
    FlatMapAssociative(ys, f, atEnd, h);
    assert FlatMap([i], atEnd) == atEnd(i) == if env(End, s, i) then [i] else [];
    FlatMapAppend([i], FlatMap(ys, f), atEnd);
    FlatMapAppend(FlatMap(ys, f), [i], atEnd);
    if min == 0 && env(End, s, i) {
      forall k | 0 <= k < |ys|
        ensures f(ys[k]) == []
      {
        assert ys[k] in ys;
      }
      FlatMapNothing(ys, f);
    }
  }

  /** Before `$`, lazy and greedy repetition offer the same ends in the same order. */
  lemma {:induction false} LazyStopsLikeGreedy(body: Element, min: nat, max: Option<nat>, s: string, i: nat,
                                               env: Oracle)
    requires i <= |s| && StopsAtEnd(body, s, env)
    ensures FlatMap(RepeatEnds(body, min, max, false, s, i, env), Then(Assertion(End), s, env))
         == FlatMap(RepeatEnds(body, min, max, true, s, i, env), Then(Assertion(End), s, env))
    decreases min, |s| - i
  {
    if max != Some(0) {
      var atEnd, ys := Then(Assertion(End), s, env), ElementEnds(body, s, i, env);
      var f, g := Iterate(body, min, max, false, s, i, env), Iterate(body, min, max, true, s, i, env);
      var hf, hg := (y: nat) => FlatMap(f(y), atEnd), (y: nat) => FlatMap(g(y), atEnd);
      forall k | 0 <= k < |ys|
        ensures hf(ys[k]) == hg(ys[k])
      {
        if i <= ys[k] <= |s| && (min != 0 || ys[k] != i) {
          LazyStopsLikeGreedy(body, Pred(min), PredBound(max), s, ys[k], env);
        }
      }
      FlatMapCongruence(ys, hf, hg);
      EndsBeforeEnd(body, min, max, false, s, i, env, hf);
      EndsBeforeEnd(body, min, max, true, s, i, env, hg);
    }
  }

  lemma {:induction false} BeforeEnd(q: Element, s: string, i: nat, env: Oracle)
    requires i <= |s| && IsLazy(q) && StopsAtEnd(q.element, s, env)
    ensures ElementsEnds([q.(greedy := true), Assertion(End)], s, i, env)
      == ElementsEnds([q, Assertion(End)], s, i, env)
  {
    PairEnds(q, Assertion(End), s, i, env);
    PairEnds(q.(greedy := true), Assertion(End), s, i, env);
    LazyStopsLikeGreedy(q.element, q.min, q.max, s, i, env);
  }

  // ----- from the tail to the alternative, the pattern and the search -----

  /** What is said to be needlessly lazy repeats an element that stops where `$` holds. */
  ghost predicate EndStopsRepetition(es: seq<Element>, s: string, env: Oracle) {
    CheckElements(es).NeedlesslyLazy? ==> StopsAtEnd(es[CheckElements(es).index].element, s, env)
  }

  ghost predicate EndStopsRepetitions(alts: seq<Alternative>, s: string, env: Oracle) {
    forall a :: a in alts ==> EndStopsRepetition(a.elements, s, env)
  }

  lemma {:induction false} SamePrefix(prefix: seq<Element>, a: seq<Element>, b: seq<Element>, s: string, i: nat,
                                      env: Oracle)
    requires i <= |s|
    requires forall y: nat :: y <= |s| ==> Head(ElementsEnds(a, s, y, env)) == Head(ElementsEnds(b, s, y, env))
    ensures Head(ElementsEnds(prefix + a, s, i, env)) == Head(ElementsEnds(prefix + b, s, i, env))
  {
    var f := (y: nat) => if |s| < y then [] else ElementsEnds(a, s, y, env);
    var g := (y: nat) => if |s| < y then [] else ElementsEnds(b, s, y, env);
    ElementsEndsAppend(prefix, a, s, i, env, f);
    ElementsEndsAppend(prefix, b, s, i, env, g);
    HeadFlatMap(ElementsEnds(prefix, s, i, env), f, g);
  }

  lemma {:induction false} FixKeepsFirstEnd(es: seq<Element>, s: string, i: nat, env: Oracle)
    requires i <= |s|
    requires forall e :: e in es ==> BoundsInOrder(e)
    requires EndStopsRepetition(es, s, env)
    ensures Head(ElementsEnds(Fix(es), s, i, env)) == Head(ElementsEnds(es, s, i, env))
  {
    var v := CheckElements(es);
    if !v.Silent? {
      var prefix, tail := es[..v.index], es[v.index..];
      var tail' := [Fix(es)[v.index]] + tail[1..];
      assert es == prefix + tail && Fix(es) == prefix + tail';
      forall y: nat | y <= |s|
        ensures Head(ElementsEnds(tail', s, y, env)) == Head(ElementsEnds(tail, s, y, env))
      {
        TailKeepsFirstEnd(es, tail, tail', s, y, env);
      }
      SamePrefix(prefix, tail', tail, s, i, env);
    }
  }

  lemma {:induction false} TailKeepsFirstEnd(es: seq<Element>, tail: seq<Element>, tail': seq<Element>, s: string,
                                             y: nat, env: Oracle)
    requires y <= |s| && !CheckElements(es).Silent?
    requires forall e :: e in es ==> BoundsInOrder(e)
    requires EndStopsRepetition(es, s, env)
    requires tail == es[CheckElements(es).index..]
    requires tail' == [Fix(es)[CheckElements(es).index]] + tail[1..]
    ensures Head(ElementsEnds(tail', s, y, env)) == Head(ElementsEnds(tail, s, y, env))
  {
    var k := CheckElements(es).index;
    var q := es[k];
    assert q in es;
    if k == |es| - 1 {
      assert tail == [q] && tail' == [Exactly(q)];
      SingletonEnds(q, s, y, env);
      SingletonEnds(Exactly(q), s, y, env);
      LazyIgnoresUpperBound(q.element, q.min, q.max, Some(q.min), s, y, env);
    } else if CheckElements(es).OnlyMin? {
      assert tail == [q, es[k + 1]] && tail' == [Exactly(q), es[k + 1]];
      BeforeOptional(q, es[k + 1], s, y, env);
    } else {
      assert tail == [q, Assertion(End)] && tail' == [q.(greedy := true), Assertion(End)];
      BeforeEnd(q, s, y, env);
    }
  }

  lemma {:induction false} FixKeepsPatternEnd(alts: seq<Alternative>, s: string, i: nat, env: Oracle)
    requires i <= |s| && WellFormed(alts) && EndStopsRepetitions(alts, s, env)
    ensures Head(AlternativesEnds(FixPattern(alts), s, i, env)) == Head(AlternativesEnds(alts, s, i, env))
  {
    if alts != [] {
      assert alts[0] in alts;
      FixKeepsFirstEnd(alts[0].elements, s, i, env);
      FixKeepsPatternEnd(alts[1..], s, i, env);
      assert FixPattern(alts)[1..] == FixPattern(alts[1..]);
    }
  }

  lemma MatchIsHead(alts: seq<Alternative>, s: string, i: nat, env: Oracle)
    requires i <= |s|
    ensures MatchAlternatives(alts, s, i, env, Accept) == Head(AlternativesEnds(alts, s, i, env))
  {
    ContinuationTakesFirstAccepted(alts, s, i, env, Accept);
    var ends := AlternativesEnds(alts, s, i, env);
    assert ends != [] ==> Accept(ends[0]) == Some(ends[0]);
  }

  /**
    Carrying out every verdict of the rule at once changes no search: whether, where and
    how far the pattern matches.  The two "only ever `min`" verdicts need no hypothesis; the
    verdict on `$` needs that the repeated element matches nothing but the empty text where `$`
    holds, as everything does at the end of the input.
  */
  lemma {:induction false} FixKeepsSearch(alts: seq<Alternative>, s: string, i: nat, env: Oracle)
    requires i <= |s| && WellFormed(alts) && EndStopsRepetitions(alts, s, env)
    ensures Search(FixPattern(alts), s, i, env) == Search(alts, s, i, env)
    decreases |s| - i
  {
    assert MatchAlternatives(FixPattern(alts), s, i, env, Accept) == MatchAlternatives(alts, s, i, env, Accept) by {
      FixKeepsPatternEnd(alts, s, i, env);
      MatchIsHead(alts, s, i, env);
      MatchIsHead(FixPattern(alts), s, i, env);
    }
    if i < |s| {
      FixKeepsSearch(alts, s, i + 1, env);
    }
  }

  ghost predicate FixIsSafe(env: Oracle) {
    forall alts, s: string, i: nat :: i <= |s| && WellFormed(alts) ==>
      Search(FixPattern(alts), s, i, env) == Search(alts, s, i, env)
  }

  const AnyLine: Element := Quantifier(Character({'\n'}), 0, None, false)

  /** With the multiline flag the rule is wrong: `\n*?$` and `\n*$` differ on a single line feed. */
  lemma MultilineCounterexample(env: Oracle)
    requires Respects(env, true)
    ensures var alts := [Alternative([AnyLine, Assertion(End)])];
            WellFormed(alts) && Search(alts, "\n", 0, env) == Some((0, 0))
            && Search(FixPattern(alts), "\n", 0, env) == Some((0, 1))
  {
    var s := "\n";
    var greedy := AnyLine.(greedy := true);
    var es := [AnyLine, Assertion(End)];
    assert CheckElements(es) == NeedlesslyLazy(0);
    assert Fix(es) == [greedy, Assertion(End)];
    assert FixPattern([Alternative(es)]) == [Alternative([greedy, Assertion(End)])] by {
      assert FixPattern([Alternative(es)]) == [Alternative(Fix(es))] + FixPattern([]);
    }
    assert Head(ElementEnds(AnyLine, s, 0, env)) == Some(0);
    GreedyTakesTheLine(s, env);
    FirstEndBeforeEnd(AnyLine, s, 0, env);
    FirstEndBeforeEnd(greedy, s, 1, env);
  }

  lemma FirstEndBeforeEnd(q: Element, s: string, h: nat, env: Oracle)
    requires h <= |s| && Head(ElementEnds(q, s, 0, env)) == Some(h) && env(End, s, h)
    ensures Search([Alternative([q, Assertion(End)])], s, 0, env) == Some((0, h))
  {
    var alts := [Alternative([q, Assertion(End)])];
    PairEnds(q, Assertion(End), s, 0, env);
    MatchIsHead(alts, s, 0, env);
    assert Then(Assertion(End), s, env)(h) == [h];
    assert AlternativesEnds(alts, s, 0, env) == ElementsEnds([q, Assertion(End)], s, 0, env)
      + AlternativesEnds([], s, 0, env);
  }

  lemma GreedyTakesTheLine(s: string, env: Oracle)
    requires s == "\n"
    ensures Head(ElementEnds(AnyLine.(greedy := true), s, 0, env)) == Some(1)
  {
    var body := AnyLine.element;
    assert ElementEnds(body, s, 0, env) == [1];
    assert ElementEnds(body, s, 1, env) == [];
    assert RepeatEnds(body, 0, None, true, s, 1, env) == [1];
  }

  /** The rule ignores the flags of the pattern; its fixes are safe exactly when `m` is not among them. */
  lemma FixIsSafeExactlyWithoutMultiline(env: Oracle, multiline: bool)
    requires Respects(env, multiline)
    ensures FixIsSafe(env) <==> !multiline
  {
    if multiline {
      MultilineCounterexample(env);
    } else {
      forall alts: seq<Alternative>, s: string, i: nat | i <= |s| && WellFormed(alts)
        ensures Search(FixPattern(alts), s, i, env) == Search(alts, s, i, env)
      {
        forall a: Alternative | a in alts
          ensures EndStopsRepetition(a.elements, s, env)
        {
          if CheckElements(a.elements).NeedlesslyLazy? {
            AllStopAtTheEndOfInput(a.elements[CheckElements(a.elements).index].element, s, env);
          }
        }
        FixKeepsSearch(alts, s, i, env);
      }
    }
  }

  lemma AllStopAtTheEndOfInput(body: Element, s: string, env: Oracle)
    requires Respects(env, false)
    ensures StopsAtEnd(body, s, env)
  {
    forall p: nat, y | p <= |s| && env(End, s, p) && y in ElementEnds(body, s, p, env)
      ensures y == p
    {
      ElementEndsWithin(body, s, p, env);
    }
  }

  /** A match of the element that starts with a line terminator is empty. */
  ghost predicate DoesNotStartWithLineTerminator(body: Element, env: Oracle) {
    forall s: string, p: nat, y ::
      p < |s| && IsLineTerminator(s[p]) && y in ElementEnds(body, s, p, env) ==> y == p
  }

  /**
    With or without the multiline flag, the verdicts on a pattern are safe if what they call
    needlessly lazy does not match a text that starts with a line terminator.
  */
  lemma FixIsSafeAwayFromLineTerminators(alts: seq<Alternative>, env: Oracle, multiline: bool, s: string, i: nat)
    requires Respects(env, multiline) && i <= |s| && WellFormed(alts)
    requires forall a :: a in alts && CheckElements(a.elements).NeedlesslyLazy? ==>
      DoesNotStartWithLineTerminator(a.elements[CheckElements(a.elements).index].element, env)
    ensures Search(FixPattern(alts), s, i, env) == Search(alts, s, i, env)
  {
    forall a: Alternative | a in alts
      ensures EndStopsRepetition(a.elements, s, env)
    {
      if CheckElements(a.elements).NeedlesslyLazy? {
        StopsAtLineTerminators(a.elements[CheckElements(a.elements).index].element, s, env, multiline);
      }
    }
    FixKeepsSearch(alts, s, i, env);
  }

  lemma StopsAtLineTerminators(body: Element, s: string, env: Oracle, multiline: bool)
    requires Respects(env, multiline) && DoesNotStartWithLineTerminator(body, env)
    ensures StopsAtEnd(body, s, env)
  {
    forall p: nat, y | p <= |s| && env(End, s, p) && y in ElementEnds(body, s, p, env)
      ensures y == p
    {
      ElementEndsWithin(body, s, p, env);
      assert EndHolds(multiline, s, p);
    }
  }

  /** So `a*?$` is safe with the multiline flag, and so is every class without line terminators. */
  lemma ClassIsSafe(cs: set<char>, env: Oracle)
    requires forall c :: c in cs ==> !IsLineTerminator(c)
    ensures DoesNotStartWithLineTerminator(Character(cs), env)
  {
  }

  // ----- when a verdict is given -----

  /** Which verdict is given on which element, by its place in the alternative. */
  lemma VerdictsByPlace(elements: seq<Element>, k: nat)
    ensures CheckElements(elements) == OnlyMin(k) <==>
      && k < |elements| && IsLazy(elements[k])
      && (|| k == |elements| - 1
          || (k == |elements| - 2 && elements[k + 1].Quantifier? && elements[k + 1].greedy && elements[k + 1].min == 0))
    ensures CheckElements(elements) == NeedlesslyLazy(k) <==>
      k + 2 == |elements| && IsLazy(elements[k]) && elements[k + 1] == Assertion(End)
  {
  }

  /** Every alternative is checked, and edited, on its own. */
  lemma {:induction false} AlternativesAreFixed(alts: seq<Alternative>, i: nat)
    requires i < |alts|
    ensures |FixPattern(alts)| == |alts| && FixPattern(alts)[i].elements == Fix(alts[i].elements)
  {
    if |alts| > 1 {
      AlternativesAreFixed(alts[1..], if i == 0 then 0 else i - 1);
    }
  }

  /** A lazy element before something that needs it to go on. */
  const AnyAs: Element := Quantifier(Character({'a'}), 0, None, false)

  /**
    Where the rule is silent before an element, it has to be: if that element matches the `b` of
    "ab" and not its `a`, then reading `a*?` in front of it as `a{0}` changes the match.
  */
  lemma SilenceIsNeeded(x: Element, env: Oracle)
    requires ElementEnds(x, "ab", 0, env) == [] && ElementEnds(x, "ab", 1, env) != []
    ensures var changed := Search([Alternative([Exactly(AnyAs), x])], "ab", 0, env);
      Search([Alternative([AnyAs, x])], "ab", 0, env) == Some((0, ElementEnds(x, "ab", 1, env)[0]))
      && (changed.Some? ==> changed.value.0 != 0)
  {
    EndsBehindAs(x, env);
    MatchOfOne([AnyAs, x], "ab", 0, env);
    MatchOfOne([Exactly(AnyAs), x], "ab", 0, env);
  }

  lemma FlatMapOne(x: nat, f: nat -> seq<nat>)
    ensures FlatMap([x], f) == f(x)
  {
    assert FlatMap([x], f) == f([x][0]) + FlatMap([x][1..], f);
  }

  lemma FlatMapTwo(x: nat, y: nat, f: nat -> seq<nat>)
    ensures FlatMap([x, y], f) == f(x) + f(y)
  {
    FlatMapOne(y, f);
    assert [x, y][1..] == [y];
  }

  lemma EndsOfAs(env: Oracle)
    ensures ElementEnds(AnyAs, "ab", 0, env) == [0, 1] && ElementEnds(Exactly(AnyAs), "ab", 0, env) == [0]
  {
    var body, s := AnyAs.element, "ab";
    assert ElementEnds(body, s, 0, env) == [1] && ElementEnds(body, s, 1, env) == [];
    RepeatEndsUnfold(body, 0, None, false, s, 1, env);
    RepeatEndsUnfold(body, 0, None, false, s, 0, env);
    assert RepeatEnds(body, 0, None, false, s, 1, env) == [1];
    FlatMapOne(1, Iterate(body, 0, None, false, s, 0, env));
  }

  lemma EndsBehindAs(x: Element, env: Oracle)
    ensures ElementsEnds([AnyAs, x], "ab", 0, env) == ElementEnds(x, "ab", 0, env) + ElementEnds(x, "ab", 1, env)
    ensures ElementsEnds([Exactly(AnyAs), x], "ab", 0, env) == ElementEnds(x, "ab", 0, env)
  {
    EndsOfAs(env);
    PairEnds(AnyAs, x, "ab", 0, env);
    PairEnds(Exactly(AnyAs), x, "ab", 0, env);
    FlatMapTwo(0, 1, Then(x, "ab", env));
    FlatMapOne(0, Then(x, "ab", env));
  }

  lemma MatchOfOne(es: seq<Element>, s: string, i: nat, env: Oracle)
    requires i <= |s|
    ensures MatchAlternatives([Alternative(es)], s, i, env, Accept) == Head(ElementsEnds(es, s, i, env))
  {
    MatchIsHead([Alternative(es)], s, i, env);
    assert AlternativesEnds([Alternative(es)], s, i, env)
        == ElementsEnds(es, s, i, env) + AlternativesEnds([], s, i, env);
  }

  predicate MatchesOnlyB(x: Element, env: Oracle) {
    ElementEnds(x, "ab", 0, env) == [] && ElementEnds(x, "ab", 1, env) != []
  }

  /** Characters, groups and quantifiers with a positive minimum are such elements, and so is `\b` where it holds. */
  lemma ElementsThatNeedSilence(env: Oracle)
    ensures var b := Character({'b'});
      forall x :: x in {b, Group([Alternative([b])]), Quantifier(b, 1, None, true)} ==>
        CheckElements([AnyAs, x]) == Silent && MatchesOnlyB(x, env)
    ensures !env(Word(false), "ab", 0) && env(Word(false), "ab", 1) ==>
      CheckElements([AnyAs, Assertion(Word(false))]) == Silent && MatchesOnlyB(Assertion(Word(false)), env)
  {
    var b, s := Character({'b'}), "ab";
    assert ElementEnds(b, s, 0, env) == [] && ElementEnds(b, s, 1, env) == [2] && ElementEnds(b, s, 2, env) == [];
    GroupOfOne(b, s, 0, env);
    GroupOfOne(b, s, 1, env);
    RepeatEndsUnfold(b, 1, None, true, s, 0, env);
    RepeatEndsUnfold(b, 1, None, true, s, 1, env);
    RepeatEndsUnfold(b, 0, None, true, s, 2, env);
    assert RepeatEnds(b, 0, None, true, s, 2, env) == [2];
    FlatMapOne(2, Iterate(b, 1, None, true, s, 1, env));
  }

  lemma GroupOfOne(e: Element, s: string, i: nat, env: Oracle)
    requires i <= |s|
    ensures ElementEnds(Group([Alternative([e])]), s, i, env) == ElementEnds(e, s, i, env)
  {
    SingletonEnds(e, s, i, env);
    assert AlternativesEnds([Alternative([e])], s, i, env)
        == ElementsEnds([e], s, i, env) + AlternativesEnds([], s, i, env);
  }
}
