/**
  The rule on repetitions of something that can be empty.  Its syntactic test overlooks
  quantifiers with a positive minimum whose body can be empty; over a whole pattern that
  costs it nothing, which is what `ReportsExactlyWhenSomeBodyMatchesEmpty` states against
  the matcher.
*/
module EmptyStringRepetition {
  import opened Wrappers
  import opened RegexMatcher
  import opened Positions

  predicate MatchEmptyString(e: Element) {
    match e
    case Character(_) => false
    case Assertion(_) => true
    case Group(alternatives) => exists a :: a in alternatives && MatchEmptyAlternative(a)
    case Quantifier(_, min, _, _) => min == 0
  }

  predicate MatchEmptyAlternative(a: Alternative) {
    forall e :: e in a.elements ==> MatchEmptyString(e)
  }

  /** Every quantifier of a tree, in the order in which the visitor enters them. */
  function Quantifiers(e: Element): (qs: seq<Element>)
    ensures forall q :: q in qs ==> q.Quantifier?
    decreases e, 1
  {
    match e
    case Character(_) => []
    case Assertion(kind) => if kind.Lookaround? then QuantifiersOfAlternatives(kind.alternatives) else []
    case Group(alternatives) => QuantifiersOfAlternatives(alternatives)
    case Quantifier(body, _, _, _) => [e] + Quantifiers(body)
  }

  function QuantifiersOfElements(es: seq<Element>): (qs: seq<Element>)
    ensures forall q :: q in qs ==> q.Quantifier?
    decreases es, 0
  {
    if es == [] then [] else Quantifiers(es[0]) + QuantifiersOfElements(es[1..])
  }

  function QuantifiersOfAlternatives(alts: seq<Alternative>): (qs: seq<Element>)
    ensures forall q :: q in qs ==> q.Quantifier?
    decreases alts, 0
  {
    if alts == [] then [] else QuantifiersOfElements(alts[0].elements) + QuantifiersOfAlternatives(alts[1..])
  }

  /** The bodies reported by the rule, in order. */
  function Reports(qs: seq<Element>): seq<Element>
    requires forall q :: q in qs ==> q.Quantifier?
  {
    if qs == [] then []
    else (if MatchEmptyString(qs[0].element) then [qs[0].element] else []) + Reports(qs[1..])
  }

  // ----- what it means to match the empty string -----

  ghost predicate AlwaysTrue(env: Oracle) {
    forall kind, s: string, i: nat :: env(kind, s, i)
  }

  /** The element matches the empty string at some position of some input, every assertion succeeding. */
  ghost predicate MatchesEmpty(e: Element) {
    exists env: Oracle, s: string, i: nat :: AlwaysTrue(env) && i <= |s| && i in ElementEnds(e, s, i, env)
  }

  /** Nullability by recursion, without the rule's shortcut. */
  predicate Nullable(e: Element) {
    match e
    case Character(_) => false
    case Assertion(_) => true
    case Group(alternatives) => exists a :: a in alternatives && NullableElements(a.elements)
    case Quantifier(body, min, _, _) => min == 0 || Nullable(body)
  }

  predicate NullableElements(es: seq<Element>) {
    forall e :: e in es ==> Nullable(e)
  }

  /** Bounds in order below `e`; the parser refuses any other pattern. */
  predicate WellFormed(e: Element) {
    match e
    case Character(_) => true
    case Assertion(_) => true
    case Group(alternatives) => forall a, x :: a in alternatives && x in a.elements ==> WellFormed(x)
    case Quantifier(body, min, max, _) => (max.Some? ==> min <= max.value) && WellFormed(body)
  }

  lemma {:induction false} NullableIsSemantic(e: Element, s: string, i: nat, env: Oracle)
    requires i <= |s| && AlwaysTrue(env) && WellFormed(e)
    ensures i in ElementEnds(e, s, i, env) <==> Nullable(e)
    decreases e, 0, 0
  {
    match e
    case Character(_) =>
    case Assertion(_) =>
    case Group(alternatives) => AlternativesNullable(alternatives, s, i, env);
    case Quantifier(body, min, max, greedy) => RepeatNullable(body, min, max, greedy, s, i, env);
  }

  lemma {:induction false} RepeatNullable(body: Element, min: nat, max: Option<nat>, greedy: bool, s: string, i: nat,
                                          env: Oracle)
    requires i <= |s| && AlwaysTrue(env) && WellFormed(body)
    requires max.Some? ==> min <= max.value
    ensures i in RepeatEnds(body, min, max, greedy, s, i, env) <==> min == 0 || Nullable(body)
    decreases body, 1, min
  {
    if min != 0 {
      EmptyIteration(body, min, max, greedy, s, i, env);
      NullableIsSemantic(body, s, i, env);
      RepeatNullable(body, Pred(min), PredBound(max), greedy, s, i, env);
    }
  }

  /** An empty mandatory iteration leaves the position, and nothing else does. */
  lemma {:induction false} EmptyIteration(body: Element, min: nat, max: Option<nat>, greedy: bool, s: string, i: nat,
                                          env: Oracle)
    requires i <= |s| && min != 0 && max != Some(0)
    ensures i in RepeatEnds(body, min, max, greedy, s, i, env)
       <==> i in ElementEnds(body, s, i, env) && i in RepeatEnds(body, Pred(min), PredBound(max), greedy, s, i, env)
  {
    var ys, f := ElementEnds(body, s, i, env), Iterate(body, min, max, greedy, s, i, env);
    RepeatEndsUnfold(body, min, max, greedy, s, i, env);
    InFlatMap(ys, f, i);
    forall k | 0 <= k < |ys| && i in f(ys[k])
      ensures ys[k] == i
    {
      RepeatEndsWithin(body, Pred(min), PredBound(max), greedy, s, ys[k], env);
    }
  }

  lemma {:induction false} ElementsNullable(es: seq<Element>, s: string, i: nat, env: Oracle)
    requires i <= |s| && AlwaysTrue(env)
    requires forall x :: x in es ==> WellFormed(x)
    ensures i in ElementsEnds(es, s, i, env) <==> NullableElements(es)
    decreases es, 0, 0
  {
    if es != [] {
      var f := (y: nat) => if y < i || |s| < y then [] else ElementsEnds(es[1..], s, y, env);
      var ys := ElementEnds(es[0], s, i, env);
      InFlatMap(ys, f, i);
      NullableIsSemantic(es[0], s, i, env);
      ElementsNullable(es[1..], s, i, env);
      forall k | 0 <= k < |ys| && i in f(ys[k])
        ensures ys[k] == i
      {
        ElementsEndsWithin(es[1..], s, ys[k], env);
      }
      assert NullableElements(es) <==> Nullable(es[0]) && NullableElements(es[1..]);
    }
  }

  lemma {:induction false} AlternativesNullable(alts: seq<Alternative>, s: string, i: nat, env: Oracle)
    requires i <= |s| && AlwaysTrue(env)
    requires forall a, x :: a in alts && x in a.elements ==> WellFormed(x)
    ensures i in AlternativesEnds(alts, s, i, env) <==> exists a :: a in alts && NullableElements(a.elements)
    decreases alts, 0, 0
  {
    if alts != [] {
      ElementsNullable(alts[0].elements, s, i, env);
      AlternativesNullable(alts[1..], s, i, env);
    }
  }

  lemma NullableIffMatchesEmpty(e: Element)
    requires WellFormed(e)
    ensures MatchesEmpty(e) <==> Nullable(e)
  {
    if Nullable(e) {
      var env: Oracle := (kind, s, i) => true;
      NullableIsSemantic(e, "", 0, env);
      assert AlwaysTrue(env) && 0 <= |""| && 0 in ElementEnds(e, "", 0, env);
    }
    if MatchesEmpty(e) {
      var env: Oracle, s: string, i: nat :| AlwaysTrue(env) && i <= |s| && i in ElementEnds(e, s, i, env);
      NullableIsSemantic(e, s, i, env);
    }
  }

  // ----- the shortcut costs nothing over a whole pattern -----

  ghost predicate SomeNullableBody(qs: seq<Element>) {
    exists q :: q in qs && q.Quantifier? && Nullable(q.element)
  }

  lemma {:induction false} ShortcutIsSound(e: Element)
    ensures MatchEmptyString(e) ==> Nullable(e)
  {
    match e
    case Character(_) =>
    case Assertion(_) =>
    case Quantifier(_, _, _, _) =>
    case Group(alternatives) =>
      if a :| a in alternatives && MatchEmptyAlternative(a) {
        forall x | x in a.elements
          ensures Nullable(x)
        {
          ShortcutIsSound(x);
        }
        assert NullableElements(a.elements);
      }
  }

  /** Where no quantifier below repeats something empty, the shortcut misses nothing. */
  lemma {:induction false} ShortcutIsComplete(e: Element)
    requires !SomeNullableBody(Quantifiers(e))
    ensures Nullable(e) ==> MatchEmptyString(e)
  {
    match e
    case Character(_) =>
    case Assertion(_) =>
    case Quantifier(body, _, _, _) => assert e in Quantifiers(e);
    case Group(alternatives) =>
      if a :| a in alternatives && NullableElements(a.elements) {
        forall x | x in a.elements
          ensures MatchEmptyString(x)
        {
          QuantifiersBelow(alternatives, a, x);
          ShortcutIsComplete(x);
        }
        assert MatchEmptyAlternative(a);
      }
  }

  lemma {:induction false} QuantifiersBelow(alts: seq<Alternative>, a: Alternative, x: Element)
    requires a in alts && x in a.elements
    ensures forall q :: q in Quantifiers(x) ==> q in QuantifiersOfAlternatives(alts)
  {
    if alts[0] == a {
      QuantifiersBelowElements(a.elements, x);
    } else {
      QuantifiersBelow(alts[1..], a, x);
    }
  }

  lemma {:induction false} QuantifiersBelowElements(es: seq<Element>, x: Element)
    requires x in es
    ensures forall q :: q in Quantifiers(x) ==> q in QuantifiersOfElements(es)
  {
    if es[0] != x {
      QuantifiersBelowElements(es[1..], x);
    }
  }

  lemma {:induction false} OwnerAmongElements(es: seq<Element>, q: Element) returns (x: Element)
    requires q in QuantifiersOfElements(es)
    ensures x in es && q in Quantifiers(x)
  {
    if q in Quantifiers(es[0]) {
      x := es[0];
    } else {
      x := OwnerAmongElements(es[1..], q);
    }
  }

  lemma {:induction false} OwnerAmongAlternatives(alts: seq<Alternative>, q: Element)
    returns (a: Alternative, x: Element)
    requires q in QuantifiersOfAlternatives(alts)
    ensures a in alts && x in a.elements && q in Quantifiers(x)
  {
    if q in QuantifiersOfElements(alts[0].elements) {
      a := alts[0];
      x := OwnerAmongElements(a.elements, q);
    } else {
      a, x := OwnerAmongAlternatives(alts[1..], q);
    }
  }

  lemma {:induction false} QuantifiersAreSmaller(e: Element, q: Element)
    requires q in Quantifiers(e)
    ensures q == e || q < e
    decreases e
  {
    match e
    case Character(_) =>
    case Assertion(kind) =>
      var _, x := OwnerAmongAlternatives(kind.alternatives, q);
      QuantifiersAreSmaller(x, q);
    case Group(alternatives) =>
      var _, x := OwnerAmongAlternatives(alternatives, q);
      QuantifiersAreSmaller(x, q);
    case Quantifier(body, _, _, _) =>
      if q != e {
        QuantifiersAreSmaller(body, q);
      }
  }

  lemma {:induction false} QuantifiersTransitive(e: Element, q: Element, r: Element)
    requires q in Quantifiers(e) && r in Quantifiers(q)
    ensures r in Quantifiers(e)
    decreases e
  {
    match e
    case Character(_) =>
    case Assertion(kind) =>
      var a, x := OwnerAmongAlternatives(kind.alternatives, q);
      QuantifiersTransitive(x, q, r);
      QuantifiersBelow(kind.alternatives, a, x);
    case Group(alternatives) =>
      var a, x := OwnerAmongAlternatives(alternatives, q);
      QuantifiersTransitive(x, q, r);
      QuantifiersBelow(alternatives, a, x);
    case Quantifier(body, _, _, _) =>
      if q != e {
        QuantifiersTransitive(body, q, r);
      }
  }

  /** Below a repeated nullable body there is a quantifier that the rule does report: the innermost one. */
  lemma {:induction false} InnermostIsReported(q: Element) returns (r: Element)
    requires q.Quantifier? && Nullable(q.element)
    ensures r in Quantifiers(q) && r.Quantifier? && MatchEmptyString(r.element)
    decreases q
  {
    if SomeNullableBody(Quantifiers(q.element)) {
      var inner :| inner in Quantifiers(q.element) && inner.Quantifier? && Nullable(inner.element);
      QuantifiersAreSmaller(q.element, inner);
      r := InnermostIsReported(inner);
      QuantifiersTransitive(q.element, inner, r);
    } else {
      ShortcutIsComplete(q.element);
      r := q;
    }
  }

  lemma {:induction false} ReportsNonEmpty(qs: seq<Element>)
    requires forall q :: q in qs ==> q.Quantifier?
    ensures Reports(qs) != [] <==> exists q :: q in qs && MatchEmptyString(q.element)
  {
    if qs != [] {
      ReportsNonEmpty(qs[1..]);
    }
  }

  // ----- which bodies are reported -----

  /** The element at a position below `e`; lookarounds have their alternatives below them too. */
  function ElementAt(e: Element, p: Position): Option<Element>
    decreases |p|, 1
  {
    if p == [] then Some(e)
    else
      match e
      case Character(_) => None
      case Assertion(kind) => if kind.Lookaround? then InAlternatives(kind.alternatives, 0, p) else None
      case Group(alternatives) => InAlternatives(alternatives, 0, p)
      case Quantifier(body, _, _, _) => if p[0] == 0 then ElementAt(body, p[1..]) else None
  }

  /** Below alternatives that are numbered from `first` on. */
  function InAlternatives(alts: seq<Alternative>, first: nat, p: Position): Option<Element>
    decreases |p|, 0
  {
    if p != [] && first <= p[0] < first + |alts| then InElements(alts[p[0] - first].elements, 0, p[1..]) else None
  }

  function InElements(es: seq<Element>, first: nat, p: Position): Option<Element>
    decreases |p|, 0
  {
    if p != [] && first <= p[0] < first + |es| then ElementAt(es[p[0] - first], p[1..]) else None
  }

  /** What the rule reports about an element: the body of a quantifier, if it passes the test. */
  function Reported(e: Option<Element>): Option<Element> {
    if e.Some? && e.value.Quantifier? && MatchEmptyString(e.value.element) then Some(e.value.element) else None
  }

  function ReportedAt(e: Element): Position -> Option<Element> {
    p => Reported(ElementAt(e, p))
  }

  function ReportedInAlternatives(alts: seq<Alternative>, first: nat): Position -> Option<Element> {
    p => Reported(InAlternatives(alts, first, p))
  }

  function ReportedInElements(es: seq<Element>, first: nat): Position -> Option<Element> {
    p => Reported(InElements(es, first, p))
  }

  lemma {:induction false} ReportsAppend(a: seq<Element>, b: seq<Element>)
    requires (forall q :: q in a ==> q.Quantifier?) && forall q :: q in b ==> q.Quantifier?
    ensures (forall q :: q in a + b ==> q.Quantifier?) && Reports(a + b) == Reports(a) + Reports(b)
  {
    if a == [] {
      assert a + b == b;
    } else {
      var own := if MatchEmptyString(a[0].element) then [a[0].element] else [];
      assert (a + b)[0] == a[0] && (a + b)[1..] == a[1..] + b;
      assert a[0] in a && forall q :: q in a[1..] ==> q in a;
      ReportsAppend(a[1..], b);
      assert forall q :: q in a + b ==> q in a || q in b;
      assert own + (Reports(a[1..]) + Reports(b)) == own + Reports(a[1..]) + Reports(b);
    }
  }

  /**
    The bodies reported are, in the order in which the visitor enters them, those of exactly
    the quantifiers at the positions of the pattern whose body passes the test, each once.
  */
  lemma {:induction false} ReportsByPosition(e: Element)
    ensures IsListOf(Reports(Quantifiers(e)), ReportedAt(e), true)
    decreases e, 1
  {
    match e
    case Character(_) => NothingIsListed(ReportedAt(e), true);
    case Assertion(kind) =>
      if kind.Lookaround? {
        ReportsInAlternatives(kind.alternatives, 0);
        SameAt(Reports(Quantifiers(e)), ReportedInAlternatives(kind.alternatives, 0), ReportedAt(e), true);
      } else {
        NothingIsListed(ReportedAt(e), true);
      }
    case Group(alternatives) =>
      ReportsInAlternatives(alternatives, 0);
      SameAt(Reports(Quantifiers(e)), ReportedInAlternatives(alternatives, 0), ReportedAt(e), true);
    case Quantifier(body, _, _, _) =>
      ReportsByPosition(body);
      QuantifierThenBody(e);
  }

  lemma QuantifierThenBody(e: Element)
    requires e.Quantifier? && IsListOf(Reports(Quantifiers(e.element)), ReportedAt(e.element), true)
    ensures IsListOf(Reports(Quantifiers(e)), ReportedAt(e), true)
  {
    var none: Position -> Option<Element> := p => None;
    var below: Position -> Option<Element> := p => if p != [] && p[0] == 0 then ReportedAt(e.element)(p[1..]) else None;
    var xs, own := Reports(Quantifiers(e.element)), if MatchEmptyString(e.element) then [e.element] else [];
    NothingIsListed(none, true);
    ChildThenOthers(0, xs, ReportedAt(e.element), [], none, below, true);
    assert xs + [] == xs;
    RootAndBelow(own, xs, below, ReportedAt(e), true);
    ReportsAppend([e], Quantifiers(e.element));
    assert Reports([e]) == own;
  }

  lemma FirstElementOrOthers(es: seq<Element>, first: nat, p: Position)
    requires es != []
    ensures InElements(es, first, p)
         == if p != [] && p[0] == first then ElementAt(es[0], p[1..]) else InElements(es[1..], first + 1, p)
    ensures InElements(es[1..], first + 1, p).Some? ==> p != [] && first < p[0]
  {
  }

  lemma FirstAlternativeOrOthers(alts: seq<Alternative>, first: nat, p: Position)
    requires alts != []
    ensures InAlternatives(alts, first, p)
         == if p != [] && p[0] == first then InElements(alts[0].elements, 0, p[1..])
            else InAlternatives(alts[1..], first + 1, p)
    ensures InAlternatives(alts[1..], first + 1, p).Some? ==> p != [] && first < p[0]
  {
  }

  lemma {:induction false} ReportsInAlternatives(alts: seq<Alternative>, first: nat)
    ensures IsListOf(Reports(QuantifiersOfAlternatives(alts)), ReportedInAlternatives(alts, first), true)
    decreases alts, 0
  {
    if alts == [] {
      NothingIsListed(ReportedInAlternatives(alts, first), true);
    } else {
      ReportsInElements(alts[0].elements, 0);
      ReportsInAlternatives(alts[1..], first + 1);
      forall p
        ensures ReportedInAlternatives(alts, first)(p)
             == if p != [] && p[0] == first then ReportedInElements(alts[0].elements, 0)(p[1..])
                else ReportedInAlternatives(alts[1..], first + 1)(p)
        ensures ReportedInAlternatives(alts[1..], first + 1)(p).Some? ==> p != [] && first < p[0]
      {
        FirstAlternativeOrOthers(alts, first, p);
      }
      ChildThenOthers(first, Reports(QuantifiersOfElements(alts[0].elements)), ReportedInElements(alts[0].elements, 0),
                      Reports(QuantifiersOfAlternatives(alts[1..])), ReportedInAlternatives(alts[1..], first + 1),
                      ReportedInAlternatives(alts, first), true);
      ReportsAppend(QuantifiersOfElements(alts[0].elements), QuantifiersOfAlternatives(alts[1..]));
    }
  }

  lemma {:induction false} ReportsInElements(es: seq<Element>, first: nat)
    ensures IsListOf(Reports(QuantifiersOfElements(es)), ReportedInElements(es, first), true)
    decreases es, 0
  {
    if es == [] {
      NothingIsListed(ReportedInElements(es, first), true);
    } else {
      ReportsByPosition(es[0]);
      ReportsInElements(es[1..], first + 1);
      forall p
        ensures ReportedInElements(es, first)(p)
             == if p != [] && p[0] == first then ReportedAt(es[0])(p[1..])
             else ReportedInElements(es[1..], first + 1)(p)
        ensures ReportedInElements(es[1..], first + 1)(p).Some? ==> p != [] && first < p[0]
      {
        FirstElementOrOthers(es, first, p);
      }
      ChildThenOthers(first, Reports(Quantifiers(es[0])), ReportedAt(es[0]),
                      Reports(QuantifiersOfElements(es[1..])), ReportedInElements(es[1..], first + 1),
                      ReportedInElements(es, first), true);
      ReportsAppend(Quantifiers(es[0]), QuantifiersOfElements(es[1..]));
    }
  }

  // ----- when something is reported -----

  ghost predicate IsQuantifierAt(e: Element, p: Position, q: Element) {
    ElementAt(e, p) == Some(q) && q.Quantifier?
  }

  lemma {:induction false} PositionHasQuantifier(e: Element, p: Position, q: Element)
    requires IsQuantifierAt(e, p, q)
    ensures q in Quantifiers(e)
    decreases |p|
  {
    if p != [] {
      if e.Quantifier? {
        PositionHasQuantifier(e.element, p[1..], q);
      } else {
        var alts := if e.Group? then e.alternatives else e.kind.alternatives;
        assert ElementAt(e, p) == InAlternatives(alts, 0, p) == InElements(alts[p[0]].elements, 0, p[1..]);
        var x := alts[p[0]].elements[p[1]];
        assert p[1..][1..] == p[2..];
        PositionHasQuantifier(x, p[2..], q);
        QuantifiersBelow(alts, alts[p[0]], x);
      }
    }
  }

  lemma {:induction false} QuantifierHasPosition(e: Element, q: Element) returns (p: Position)
    requires q in Quantifiers(e)
    ensures IsQuantifierAt(e, p, q)
    decreases e
  {
    match e
    case Assertion(kind) =>
      var a, x := OwnerAmongAlternatives(kind.alternatives, q);
      var rest := QuantifierHasPosition(x, q);
      p := PositionInAlternatives(e, kind.alternatives, a, x, rest);
    case Group(alternatives) =>
      var a, x := OwnerAmongAlternatives(alternatives, q);
      var rest := QuantifierHasPosition(x, q);
      p := PositionInAlternatives(e, alternatives, a, x, rest);
    case Quantifier(body, _, _, _) =>
      p := [];
      if q != e {
        var rest := QuantifierHasPosition(body, q);
        p := [0] + rest;
        assert p[1..] == rest;
      }
  }

  lemma PositionInAlternatives(e: Element, alts: seq<Alternative>, a: Alternative, x: Element, rest: Position)
    returns (p: Position)
    requires e == Group(alts) || (e.Assertion? && e.kind.Lookaround? && e.kind.alternatives == alts)
    requires a in alts && x in a.elements
    ensures ElementAt(e, p) == ElementAt(x, rest)
  {
    var i :| 0 <= i < |alts| && alts[i] == a;
    var j :| 0 <= j < |a.elements| && a.elements[j] == x;
    p := [i, j] + rest;
    assert p[1..] == [j] + rest && ([j] + rest)[1..] == rest;
    assert InElements(a.elements, 0, [j] + rest) == ElementAt(x, rest);
    assert InAlternatives(alts, 0, p) == InElements(a.elements, 0, p[1..]);
  }

  /**
    The rule stays silent on a pattern exactly when no quantifier at any position of it, inside
    lookarounds included, repeats something that can match the empty string.
  */
  lemma ReportsExactlyWhenSomeBodyMatchesEmpty(pattern: Element)
    requires forall p, q :: IsQuantifierAt(pattern, p, q) ==> WellFormed(q)
    ensures Reports(Quantifiers(pattern)) != []
       <==> exists p, q :: IsQuantifierAt(pattern, p, q) && MatchesEmpty(q.element)
  {
    var qs := Quantifiers(pattern);
    forall q | q in qs
      ensures WellFormed(q)
    {
      var p := QuantifierHasPosition(pattern, q);
    }
    ReportsNonEmpty(qs);
    if r :| r in qs && MatchEmptyString(r.element) {
      ShortcutIsSound(r.element);
      NullableIffMatchesEmpty(r.element);
      var p := QuantifierHasPosition(pattern, r);
    }
    if p, q :| IsQuantifierAt(pattern, p, q) && MatchesEmpty(q.element) {
      PositionHasQuantifier(pattern, p, q);
      NullableIffMatchesEmpty(q.element);
      var r := InnermostIsReported(q);
      QuantifiersTransitive(pattern, q, r);
    }
  }

  // ----- the test itself -----

  /** The element with the body of each outermost quantifier replaced by one that matches no empty text. */
  function Solid(e: Element): Element {
    match e
    case Character(_) => e
    case Assertion(_) => e
    case Group(alternatives) => Group(seq(|alternatives|,
                                          i requires 0 <= i < |alternatives| => SolidAlternative(alternatives[i])))
    case Quantifier(_, min, max, greedy) => Quantifier(Character({}), min, max, greedy)
  }

  function SolidAlternative(a: Alternative): Alternative {
    Alternative(seq(|a.elements|, i requires 0 <= i < |a.elements| => Solid(a.elements[i])))
  }

  /** The test asks whether an element can match the empty string without one iteration of a quantifier. */
  lemma {:induction false} TestIsEmptyMatchWithoutIteration(e: Element)
    requires WellFormed(e)
    ensures MatchEmptyString(e) <==> MatchesEmpty(Solid(e))
  {
    SolidIsWellFormed(e);
    TestIsNullableSolid(e);
    NullableIffMatchesEmpty(Solid(e));
  }

  lemma {:induction false} SolidIsWellFormed(e: Element)
    requires WellFormed(e)
    ensures WellFormed(Solid(e))
  {
    if e.Group? {
      var alts, solid := e.alternatives, Solid(e).alternatives;
      forall b, y | b in solid && y in b.elements
        ensures WellFormed(y)
      {
        var i :| 0 <= i < |alts| && solid[i] == b;
        assert b == SolidAlternative(alts[i]) && |b.elements| == |alts[i].elements|;
        var j :| 0 <= j < |b.elements| && b.elements[j] == y;
        assert alts[i] in alts && alts[i].elements[j] in alts[i].elements;
        SolidIsWellFormed(alts[i].elements[j]);
      }
    }
  }

  lemma {:induction false} TestIsNullableSolid(e: Element)
    ensures MatchEmptyString(e) <==> Nullable(Solid(e))
    decreases e, 1
  {
    if e.Group? {
      var alts, solid := e.alternatives, Solid(e).alternatives;
      forall i | 0 <= i < |alts|
        ensures MatchEmptyAlternative(alts[i]) <==> NullableElements(solid[i].elements)
      {
        TestIsNullableAlternative(alts[i]);
      }
      if a :| a in alts && MatchEmptyAlternative(a) {
        var i :| 0 <= i < |alts| && alts[i] == a;
        assert solid[i] in solid;
      }
      if b :| b in solid && NullableElements(b.elements) {
        var i :| 0 <= i < |alts| && solid[i] == b;
        assert alts[i] in alts;
      }
    }
  }

  lemma {:induction false} TestIsNullableAlternative(a: Alternative)
    ensures MatchEmptyAlternative(a) <==> NullableElements(SolidAlternative(a).elements)
    decreases a, 0
  {
    var es, solid := a.elements, SolidAlternative(a).elements;
    forall j | 0 <= j < |es|
      ensures MatchEmptyString(es[j]) <==> Nullable(solid[j])
    {
      TestIsNullableSolid(es[j]);
    }
    assert (forall x :: x in es ==> MatchEmptyString(x)) <==> forall j :: 0 <= j < |es| ==> MatchEmptyString(es[j]);
    assert (forall y :: y in solid ==> Nullable(y)) <==> forall j :: 0 <= j < |solid| ==> Nullable(solid[j]);
  }
}
