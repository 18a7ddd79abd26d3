/**
  When the rule on reassigned parameters raises an issue, said of the events alone: which
  contexts are open, where a name is declared, and which earlier uses count as reads.
*/
module ParameterReports {
  import opened Wrappers
  import opened ParameterReassignment

  /**
    A context that is open: `entered` counts the events up to the one that entered it; `exempt`
    are the names that it takes from the check, `isBase` says that nothing is taken over from
    the contexts around it.
  */
  datatype Opened = Opened(entered: nat, kind: ContextType, declared: set<Name>, exempt: set<Name>,
                           references: map<IdentifierNode, Reference>, isBase: bool)

  function Entering(e: Event, entered: nat): Opened
    requires !e.Exit? && !e.Usage?
  {
    match e
    case FunctionStart(scope, functionName) =>
      Opened(entered, Function, scope.declared, if functionName.Some? then {functionName.value} else {},
             scope.references, false)
    case GlobalStart => Opened(entered, Global, {}, {}, map[], true)
    case ForEachStart(scope, patternNames) =>
      Opened(entered, Foreach, scope.declared + patternNames, {}, scope.references, false)
    case CatchStart(scope) => Opened(entered, Catch, scope.declared, {}, scope.references, false)
  }

  /** The contexts open behind the events, the outermost one for ever. */
  function Open(events: seq<Event>): (chain: seq<Opened>)
    ensures chain != []
  {
    if events == [] then [Opened(0, Global, {}, {}, map[], true)]
    else
      var before, e := Open(events[..|events| - 1]), events[|events| - 1];
      if e.Usage? then before
      else if e.Exit? then if |before| == 1 then before else before[..|before| - 1]
      else before + [Entering(e, |events|)]
  }

  /** `ref` is the reference of the identifier in the innermost context that has one. */
  ghost predicate IsNearest(chain: seq<Opened>, identifier: IdentifierNode, ref: Reference) {
    exists k: nat :: IsNearestAt(chain, k, identifier, ref)
  }

  ghost predicate IsNearestAt(chain: seq<Opened>, k: nat, identifier: IdentifierNode, ref: Reference) {
    && k < |chain| && identifier in chain[k].references && ref == chain[k].references[identifier]
    && forall j :: k < j < |chain| ==> identifier !in chain[j].references
  }

  /** Some open context declares the name, and no function behind it exempts it, itself included. */
  ghost predicate IsChecked(chain: seq<Opened>, v: Name) {
    exists k :: 0 <= k < |chain| && v in chain[k].declared && StaysChecked(chain, k, v)
  }

  ghost predicate StaysChecked(chain: seq<Opened>, k: nat, v: Name) {
    forall j :: k <= j < |chain| ==> v !in chain[j].exempt && (k < j ==> !chain[j].isBase)
  }

  /** One past the innermost context that declares the name; 0 if none does. */
  function DeclaredBy(chain: seq<Opened>, v: Name): (d: nat)
    ensures d <= |chain| && (d > 0 ==> v in chain[d - 1].declared)
    ensures forall j :: d <= j < |chain| ==> v !in chain[j].declared
  {
    if chain == [] then 0
    else if v in chain[|chain| - 1].declared then |chain|
    else DeclaredBy(chain[..|chain| - 1], v)
  }

  /** One past the innermost function; 0 if there is none. */
  function FunctionOf(chain: seq<Opened>): (f: nat)
    ensures f <= |chain| && (f > 0 ==> chain[f - 1].kind.Function?)
    ensures forall j :: f <= j < |chain| ==> !chain[j].kind.Function?
  {
    if chain == [] then 0
    else if chain[|chain| - 1].kind.Function? then |chain|
    else FunctionOf(chain[..|chain| - 1])
  }

  /** An assignment that would be reported for an unread name. */
  ghost predicate IsReassignment(chain: seq<Opened>, v: Name, ref: Reference) {
    ref.isWriteOnly && !ref.usedInWrite && IsChecked(chain, v)
  }

  ghost predicate IsHere(before: seq<Event>, e: Event) {
    e.Usage? && e.kind == Open(before)[|Open(before)| - 1].kind
  }

  /** The event counts as a read of the name, be it a read or a write; a conditional reassignment does not. */
  ghost predicate IsUse(before: seq<Event>, e: Event, v: Name) {
    && IsHere(before, e) && e.name == v
    && exists ref :: IsNearest(Open(before), e.identifier, ref) && !ref.init
         && !(e.conditional && IsReassignment(Open(before), v, ref))
  }

  ghost predicate HasReference(before: seq<Event>, e: Event)
    requires e.Usage?
  {
    exists ref :: IsNearest(Open(before), e.identifier, ref) && !ref.init
  }

  /** In both chains the name is declared by the same context, or by none. */
  ghost predicate SameDeclaration(a: seq<Opened>, b: seq<Opened>, v: Name) {
    var d, d' := DeclaredBy(a, v), DeclaredBy(b, v);
    (d == 0 <==> d' == 0) && (d > 0 && d' > 0 ==> a[d - 1].entered == b[d' - 1].entered)
  }

  /** Every base context from `d` on was open already when event `t` came. */
  ghost predicate IsNotCutOff(chain: seq<Opened>, d: nat, t: nat) {
    forall i :: d <= i < |chain| && chain[i].isBase ==> chain[i].entered <= t
  }

  /** Every context from `d` on was entered behind event `t`, and takes over what is read. */
  ghost predicate IsEnteredLater(chain: seq<Opened>, d: nat, t: nat) {
    forall i :: d <= i < |chain| ==> t < chain[i].entered && !chain[i].isBase
  }

  /** Event `t` used the name for the same declaration, and no base context has cut it off since. */
  ghost predicate UsedAt(events: seq<Event>, t: nat, chain: seq<Opened>, v: Name)
    requires t < |events|
  {
    && IsUse(events[..t], events[t], v)
    && SameDeclaration(Open(events[..t]), chain, v)
    && IsNotCutOff(chain, DeclaredBy(chain, v), t)
  }

  /** An `arguments` that is not itself a first use: it reads all variables of the innermost function. */
  ghost predicate IsArgumentsUse(before: seq<Event>, e: Event)
    decreases |before|, 2
  {
    IsHere(before, e) && e.name == "arguments"
    && (!HasReference(before, e) || IsRead(before, Open(before), "arguments"))
  }

  /** The innermost function of the one chain is the context that declares the name in the other. */
  ghost predicate FunctionDeclares(a: seq<Opened>, b: seq<Opened>, v: Name) {
    var f, d := FunctionOf(a), DeclaredBy(b, v);
    f > 0 && d > 0 && a[f - 1].entered == b[d - 1].entered
  }

  /** Event `t` used the `arguments` of the declaring function before anything now open in it was entered. */
  ghost predicate ArgumentsAt(events: seq<Event>, t: nat, chain: seq<Opened>, v: Name)
    requires t < |events|
    decreases |events|, 0
  {
    && IsArgumentsUse(events[..t], events[t])
    && FunctionDeclares(Open(events[..t]), chain, v)
    && IsEnteredLater(chain, DeclaredBy(chain, v), t)
  }

  /** The name counts as read in the innermost context of `chain`. */
  ghost predicate IsRead(events: seq<Event>, chain: seq<Opened>, v: Name)
    decreases |events|, 1
  {
    || (exists t: nat :: t < |events| && UsedAt(events, t, chain, v))
    || (exists t: nat :: t < |events| && ArgumentsAt(events, t, chain, v))
  }

  /**
    The event raises an issue: it is a use of the current kind of context, its nearest reference
    is a write only, neither an initialization nor conditional, whose expression does not mention
    the name; the name is checked; and it has not been read since it was declared.
  */
  ghost predicate Raises(before: seq<Event>, e: Event) {
    && IsHere(before, e) && !e.conditional && !IsRead(before, Open(before), e.name)
    && exists ref ::
      IsNearest(Open(before), e.identifier, ref) && !ref.init && IsReassignment(Open(before), e.name, ref)
  }

  // ----- the handlers keep to this -----

  lemma {:induction false} EnteredInOrder(events: seq<Event>)
    ensures forall i :: 0 <= i < |Open(events)| ==> Open(events)[i].entered <= |events|
    ensures forall i, j :: 0 <= i < j < |Open(events)| ==> Open(events)[i].entered < Open(events)[j].entered
  {
    if events != [] {
      EnteredInOrder(events[..|events| - 1]);
    }
  }

  /** A context and the part of the chain that ends with it. */
  ghost predicate Fits(events: seq<Event>, c: Context, chain: seq<Opened>)
    requires chain != []
  {
    var o := chain[|chain| - 1];
    && c.kind == o.kind && c.declared == o.declared && c.references == o.references
    && (forall v :: v in c.toCheck <==> IsChecked(chain, v))
    && (forall v :: v in c.read <==> IsRead(events, chain, v))
  }

  ghost predicate Matches(events: seq<Event>, contexts: seq<Context>) {
    |contexts| == |Open(events)| && forall j :: 0 <= j < |contexts| ==> Fits(events, contexts[j], Open(events)[..j + 1])
  }

  /** The last event is the only one that can add something. */
  lemma LastEventAdds(events: seq<Event>, e: Event, chain: seq<Opened>, v: Name)
    ensures IsRead(events + [e], chain, v) <==>
      IsRead(events, chain, v) || UsedAt(events + [e], |events|, chain, v)
      || ArgumentsAt(events + [e], |events|, chain, v)
  {
    var longer := events + [e];
    forall t: nat | t < |events|
      ensures UsedAt(longer, t, chain, v) <==> UsedAt(events, t, chain, v)
      ensures ArgumentsAt(longer, t, chain, v) <==> ArgumentsAt(events, t, chain, v)
    {
      assert longer[..t] == events[..t] && longer[t] == events[t];
    }
    if t: nat :| t < |longer| && UsedAt(longer, t, chain, v) {
      assert t < |events| ==> UsedAt(events, t, chain, v);
    }
    if t: nat :| t < |longer| && ArgumentsAt(longer, t, chain, v) {
      assert t < |events| ==> ArgumentsAt(events, t, chain, v);
    }
    if t: nat :| t < |events| && UsedAt(events, t, chain, v) {
      assert UsedAt(longer, t, chain, v);
    }
    if t: nat :| t < |events| && ArgumentsAt(events, t, chain, v) {
      assert ArgumentsAt(longer, t, chain, v);
    }
  }

  lemma QuietEventAddsNothing(events: seq<Event>, e: Event, chain: seq<Opened>, v: Name)
    requires !e.Usage?
    ensures IsRead(events + [e], chain, v) <==> IsRead(events, chain, v)
  {
    LastEventAdds(events, e, chain, v);
    assert (events + [e])[..|events|] == events;
  }

  lemma DeclaredByLonger(chain: seq<Opened>, o: Opened, v: Name)
    ensures DeclaredBy(chain + [o], v) == if v in o.declared then |chain| + 1 else DeclaredBy(chain, v)
  {
    assert (chain + [o])[..|chain|] == chain;
  }

  lemma UseTakenOver(events: seq<Event>, t: nat, chain: seq<Opened>, o: Opened, v: Name)
    requires t < |events| <= o.entered && (o.isBase ==> o.declared == {})
    ensures UsedAt(events, t, chain + [o], v) <==> v !in o.declared && !o.isBase && UsedAt(events, t, chain, v)
  {
    var longer := chain + [o];
    DeclaredByLonger(chain, o, v);
    EnteredInOrder(events[..t]);
    assert longer[|chain|] == o && forall i :: 0 <= i < |chain| ==> longer[i] == chain[i];
  }

  lemma ArgumentsTakenOver(events: seq<Event>, t: nat, chain: seq<Opened>, o: Opened, v: Name)
    requires t < |events| <= o.entered && (o.isBase ==> o.declared == {})
    ensures ArgumentsAt(events, t, chain + [o], v)
      <==> v !in o.declared && !o.isBase && ArgumentsAt(events, t, chain, v)
  {
    var longer := chain + [o];
    DeclaredByLonger(chain, o, v);
    EnteredInOrder(events[..t]);
    assert longer[|chain|] == o && forall i :: 0 <= i < |chain| ==> longer[i] == chain[i];
  }

  /** A context just entered takes over what is read, but for its own names. */
  lemma EnteredTakesOver(events: seq<Event>, chain: seq<Opened>, o: Opened, v: Name)
    requires o.entered >= |events| && (o.isBase ==> o.declared == {})
    ensures IsRead(events, chain + [o], v) <==> v !in o.declared && !o.isBase && IsRead(events, chain, v)
  {
    forall t: nat | t < |events|
      ensures UsedAt(events, t, chain + [o], v) <==> v !in o.declared && !o.isBase && UsedAt(events, t, chain, v)
      ensures ArgumentsAt(events, t, chain + [o], v)
         <==> v !in o.declared && !o.isBase && ArgumentsAt(events, t, chain, v)
    {
      UseTakenOver(events, t, chain, o, v);
      ArgumentsTakenOver(events, t, chain, o, v);
    }
  }

  lemma EnteredIsChecked(chain: seq<Opened>, o: Opened, v: Name)
    requires o.isBase ==> o.declared == {}
    ensures IsChecked(chain + [o], v) <==> v !in o.exempt && (v in o.declared || (!o.isBase && IsChecked(chain, v)))
  {
    var longer, n := chain + [o], |chain|;
    assert longer[n] == o && forall i :: 0 <= i < n ==> longer[i] == chain[i];
    if v !in o.exempt && v in o.declared {
      assert StaysChecked(longer, n, v);
    }
    if k :| 0 <= k < n && v in chain[k].declared && StaysChecked(chain, k, v) {
      assert v !in o.exempt && !o.isBase ==> StaysChecked(longer, k, v);
    }
    if k :| 0 <= k <= n && v in longer[k].declared && StaysChecked(longer, k, v) {
      assert longer[n] == o;
      if k < n {
        assert StaysChecked(chain, k, v) by {
          forall j | k <= j < n
            ensures v !in chain[j].exempt && (k < j ==> !chain[j].isBase)
          {
            assert longer[j] == chain[j];
          }
        }
      }
    }
  }

  ghost predicate SameScopes(contexts: seq<Context>, chain: seq<Opened>) {
    && |contexts| == |chain|
    && forall j :: 0 <= j < |chain| ==>
      contexts[j].kind == chain[j].kind && contexts[j].declared == chain[j].declared
      && contexts[j].references == chain[j].references
  }

  lemma {:induction false} SameDeclarer(contexts: seq<Context>, chain: seq<Opened>, v: Name)
    requires SameScopes(contexts, chain)
    ensures DeclarerEnd(contexts, v) == DeclaredBy(chain, v)
  {
    if chain != [] {
      SameDeclarer(contexts[..|contexts| - 1], chain[..|chain| - 1], v);
    }
  }

  lemma {:induction false} SameReference(contexts: seq<Context>, chain: seq<Opened>, identifier: IdentifierNode,
                                         ref: Reference)
    requires SameScopes(contexts, chain)
    ensures GetReference(contexts, identifier) == Some(ref) <==> IsNearest(chain, identifier, ref)
  {
    if chain != [] {
      var n := |chain| - 1;
      SameReference(contexts[..n], chain[..n], identifier, ref);
      if identifier in chain[n].references {
        assert ref == chain[n].references[identifier] ==> IsNearestAt(chain, n, identifier, ref);
      } else {
        NearestIsFurtherOut(chain, identifier, ref);
      }
    }
  }

  lemma NearestIsFurtherOut(chain: seq<Opened>, identifier: IdentifierNode, ref: Reference)
    requires chain != [] && identifier !in chain[|chain| - 1].references
    ensures IsNearest(chain, identifier, ref) <==> IsNearest(chain[..|chain| - 1], identifier, ref)
  {
    var shorter := chain[..|chain| - 1];
    assert forall j :: 0 <= j < |shorter| ==> shorter[j] == chain[j];
    if k: nat :| IsNearestAt(chain, k, identifier, ref) {
      assert IsNearestAt(shorter, k, identifier, ref);
    }
    if k: nat :| IsNearestAt(shorter, k, identifier, ref) {
      forall j | k < j < |chain|
        ensures identifier !in chain[j].references
      {
        assert j < |shorter| ==> shorter[j] == chain[j];
      }
      assert IsNearestAt(chain, k, identifier, ref);
    }
  }

  lemma {:induction false} ArgumentsOfFunction(contexts: seq<Context>, chain: seq<Opened>, j: nat)
    requires SameScopes(contexts, chain) && j < |chain|
    ensures MarkArguments(contexts)[j]
         == if FunctionOf(chain) == j + 1 then contexts[j].(read := contexts[j].read + contexts[j].declared)
         else contexts[j]
  {
    var n := |chain| - 1;
    if !contexts[n].kind.Function? && j < n {
      ArgumentsOfFunction(contexts[..n], chain[..n], j);
    }
  }

  lemma MatchesScopes(events: seq<Event>, contexts: seq<Context>)
    requires Matches(events, contexts)
    ensures SameScopes(contexts, Open(events))
  {
    forall j | 0 <= j < |contexts|
      ensures contexts[j].kind == Open(events)[j].kind && contexts[j].declared == Open(events)[j].declared
      ensures contexts[j].references == Open(events)[j].references
    {
      assert Fits(events, contexts[j], Open(events)[..j + 1]);
    }
  }

  /** What is read on top is read everywhere down to the same declaration. */
  lemma ReadReachesDown(events: seq<Event>, chain: seq<Opened>, j: nat, v: Name)
    requires j < |chain| && IsRead(events, chain, v) && DeclaredBy(chain[..j + 1], v) == DeclaredBy(chain, v)
    ensures IsRead(events, chain[..j + 1], v)
  {
    if t: nat :| t < |events| && UsedAt(events, t, chain, v) {
      UseReachesDown(events, t, chain, j, v);
    } else if t: nat :| t < |events| && ArgumentsAt(events, t, chain, v) {
      ArgumentsReachDown(events, t, chain, j, v);
    }
  }

  lemma UseReachesDown(events: seq<Event>, t: nat, chain: seq<Opened>, j: nat, v: Name)
    requires j < |chain| && DeclaredBy(chain[..j + 1], v) == DeclaredBy(chain, v) && t < |events|
    requires UsedAt(events, t, chain, v)
    ensures UsedAt(events, t, chain[..j + 1], v)
  {
    PartOfChain(chain, j, DeclaredBy(chain, v), t);
    assert SameDeclaration(Open(events[..t]), chain[..j + 1], v);
  }

  lemma ArgumentsReachDown(events: seq<Event>, t: nat, chain: seq<Opened>, j: nat, v: Name)
    requires j < |chain| && DeclaredBy(chain[..j + 1], v) == DeclaredBy(chain, v) && t < |events|
    requires ArgumentsAt(events, t, chain, v)
    ensures ArgumentsAt(events, t, chain[..j + 1], v)
  {
    PartOfChain(chain, j, DeclaredBy(chain, v), t);
    assert FunctionDeclares(Open(events[..t]), chain[..j + 1], v);
  }

  lemma PartOfChain(chain: seq<Opened>, j: nat, d: nat, t: nat)
    requires j < |chain|
    ensures forall i :: 0 <= i < j + 1 ==> chain[..j + 1][i] == chain[i]
    ensures IsNotCutOff(chain, d, t) ==> IsNotCutOff(chain[..j + 1], d, t)
    ensures IsEnteredLater(chain, d, t) ==> IsEnteredLater(chain[..j + 1], d, t)
  {
  }

  /** A part of a chain has the same declaration exactly when it reaches up to it. */
  lemma SameDeclarationInPart(chain: seq<Opened>, j: nat, v: Name)
    requires j < |chain| && forall a, b :: 0 <= a < b < |chain| ==> chain[a].entered < chain[b].entered
    ensures SameDeclaration(chain, chain[..j + 1], v) <==> DeclaredBy(chain[..j + 1], v) == DeclaredBy(chain, v)
  {
    var d, d' := DeclaredBy(chain[..j + 1], v), DeclaredBy(chain, v);
    assert forall i :: 0 <= i < j + 1 ==> chain[..j + 1][i] == chain[i];
    assert d > 0 && d' > 0 && d != d' ==> chain[d - 1].entered != chain[d' - 1].entered;
  }

  lemma FunctionDeclaresInPart(chain: seq<Opened>, j: nat, v: Name)
    requires j < |chain| && forall a, b :: 0 <= a < b < |chain| ==> chain[a].entered < chain[b].entered
    ensures FunctionDeclares(chain, chain[..j + 1], v) && DeclaredBy(chain[..j + 1], v) == j + 1
       <==> FunctionOf(chain) == j + 1 && v in chain[j].declared
  {
    var f, d := FunctionOf(chain), DeclaredBy(chain[..j + 1], v);
    assert chain[..j + 1][j] == chain[j];
    assert forall i :: 0 <= i < j + 1 ==> chain[..j + 1][i] == chain[i];
    assert f > 0 && d > 0 && f != d ==> chain[f - 1].entered != chain[d - 1].entered;
  }

  /** The last event, a use, counts for all contexts from the declaring one on. */
  lemma UsedLast(events: seq<Event>, e: Event, j: nat, v: Name)
    requires j < |Open(events)|
    ensures UsedAt(events + [e], |events|, Open(events)[..j + 1], v) <==>
      IsUse(events, e, v) && DeclaredBy(Open(events)[..j + 1], v) == DeclaredBy(Open(events), v)
  {
    assert (events + [e])[..|events|] == events;
    EnteredInOrder(events);
    SameDeclarationInPart(Open(events), j, v);
    assert IsNotCutOff(Open(events)[..j + 1], DeclaredBy(Open(events)[..j + 1], v), |events|);
  }

  /** The last event, an `arguments`, counts for the function alone. */
  lemma ArgumentsLast(events: seq<Event>, e: Event, j: nat, v: Name)
    requires j < |Open(events)|
    ensures ArgumentsAt(events + [e], |events|, Open(events)[..j + 1], v) <==>
      IsArgumentsUse(events, e) && FunctionOf(Open(events)) == j + 1 && v in Open(events)[j].declared
  {
    var part := Open(events)[..j + 1];
    assert (events + [e])[..|events|] == events;
    EnteredInOrder(events);
    FunctionDeclaresInPart(Open(events), j, v);
    OnlyTheLast(part, DeclaredBy(part, v), |events|);
  }

  /** Nothing from `d` on was entered behind all events, unless there is nothing. */
  lemma OnlyTheLast(part: seq<Opened>, d: nat, n: nat)
    requires d <= |part| && forall i :: 0 <= i < |part| ==> part[i].entered <= n
    ensures IsEnteredLater(part, d, n) <==> d == |part|
  {
    if d < |part| {
      assert part[d].entered <= n;
    }
  }

  // ----- each event keeps the match -----

  lemma FitsLonger(events: seq<Event>, e: Event, c: Context, chain: seq<Opened>)
    requires !e.Usage? && chain != [] && Fits(events, c, chain)
    ensures Fits(events + [e], c, chain)
  {
    forall v
      ensures v in c.read <==> IsRead(events + [e], chain, v)
    {
      QuietEventAddsNothing(events, e, chain, v);
    }
  }

  lemma EnterKeepsMatch(events: seq<Event>, e: Event, s: State)
    requires s.contexts != [] && Matches(events, s.contexts) && !e.Usage? && !e.Exit?
    ensures Matches(events + [e], Step(s, e).contexts)
  {
    var chain, contexts, longer := Open(events), Step(s, e).contexts, events + [e];
    assert longer[..|longer| - 1] == events;
    var o, n := Entering(e, |longer|), |chain|;
    assert Open(longer) == chain + [o] && |contexts| == n + 1;
    forall j | 0 <= j <= n
      ensures Fits(longer, contexts[j], Open(longer)[..j + 1])
    {
      if j < n {
        assert Open(longer)[..j + 1] == chain[..j + 1] && contexts[j] == s.contexts[j];
        FitsLonger(events, e, contexts[j], chain[..j + 1]);
      } else {
        assert Open(longer)[..n + 1] == chain + [o];
        assert Fits(events, s.contexts[n - 1], chain[..n]) && chain[..n] == chain;
        EnteredFits(events, e, s, o);
      }
    }
  }

  lemma EnteredFits(events: seq<Event>, e: Event, s: State, o: Opened)
    requires s.contexts != [] && !e.Usage? && !e.Exit? && o == Entering(e, |events| + 1)
    requires Fits(events, s.contexts[|s.contexts| - 1], Open(events))
    ensures Step(s, e).contexts != []
    ensures Fits(events + [e], Step(s, e).contexts[|Step(s, e).contexts| - 1], Open(events) + [o])
  {
    EnteredContext(s, e, o);
    EnteredFitsContext(events, e, s.contexts[|s.contexts| - 1], Open(events), o,
                       Step(s, e).contexts[|Step(s, e).contexts| - 1]);
  }

  lemma EnteredFitsContext(events: seq<Event>, e: Event, parent: Context, chain: seq<Opened>, o: Opened, c: Context)
    requires chain != [] && Fits(events, parent, chain) && !e.Usage? && o.entered > |events|
      && (o.isBase ==> o.declared == {})
    requires c.kind == o.kind && c.declared == o.declared && c.references == o.references
    requires c.toCheck == EnteredChecks(parent, o) && c.read == EnteredReads(parent, o)
    ensures Fits(events + [e], c, chain + [o])
  {
    assert (chain + [o])[|chain + [o]| - 1] == o;
    forall v
      ensures v in c.toCheck <==> IsChecked(chain + [o], v)
    {
      EnteredIsChecked(chain, o, v);
    }
    forall v
      ensures v in c.read <==> IsRead(events + [e], chain + [o], v)
    {
      EnteredTakesOver(events + [e], chain, o, v);
      QuietEventAddsNothing(events, e, chain, v);
    }
  }

  function EnteredChecks(parent: Context, o: Opened): set<Name> {
    if o.isBase then {} else parent.toCheck + o.declared - o.exempt
  }

  function EnteredReads(parent: Context, o: Opened): set<Name> {
    if o.isBase then {} else parent.read - o.declared
  }

  lemma EnteredContext(s: State, e: Event, o: Opened)
    requires s.contexts != [] && !e.Usage? && !e.Exit? && o == Entering(e, o.entered)
    ensures var contexts, parent := Step(s, e).contexts, s.contexts[|s.contexts| - 1];
      && contexts != []
      && var c := contexts[|contexts| - 1];
         && c.kind == o.kind && c.declared == o.declared && c.references == o.references
         && c.toCheck == EnteredChecks(parent, o) && c.read == EnteredReads(parent, o)
    ensures o.isBase ==> o.declared == {}
  {
  }

  lemma ExitKeepsMatch(events: seq<Event>, s: State)
    requires s.contexts != [] && Matches(events, s.contexts)
    ensures Matches(events + [Exit], Step(s, Exit).contexts)
  {
    var chain, contexts, longer := Open(events), Step(s, Exit).contexts, events + [Exit];
    assert longer[..|longer| - 1] == events;
    forall j | 0 <= j < |contexts|
      ensures Fits(longer, contexts[j], Open(longer)[..j + 1])
    {
      assert Open(longer)[..j + 1] == chain[..j + 1] && contexts[j] == s.contexts[j];
      FitsLonger(events, Exit, contexts[j], chain[..j + 1]);
    }
  }

  /** What a usage adds to a context. */
  ghost predicate Adds(events: seq<Event>, e: Event, j: nat, v: Name)
    requires j < |Open(events)|
  {
    || (IsUse(events, e, v) && DeclaredBy(Open(events)[..j + 1], v) == DeclaredBy(Open(events), v))
    || (IsArgumentsUse(events, e) && FunctionOf(Open(events)) == j + 1 && v in Open(events)[j].declared)
  }

  lemma UsageAdds(events: seq<Event>, e: Event, j: nat, v: Name)
    requires j < |Open(events)|
    ensures IsRead(events + [e], Open(events)[..j + 1], v)
       <==> IsRead(events, Open(events)[..j + 1], v) || Adds(events, e, j, v)
  {
    LastEventAdds(events, e, Open(events)[..j + 1], v);
    UsedLast(events, e, j, v);
    ArgumentsLast(events, e, j, v);
  }

  /** On the state: what a usage does, in the words of the events. */
  lemma UsageByEvents(events: seq<Event>, e: Event, s: State)
    requires s.contexts != [] && Matches(events, s.contexts) && e.Usage?
    ensures var top := s.contexts[|s.contexts| - 1];
      && (IsHere(events, e) <==> top.kind == e.kind)
      && (forall ref ::
            GetReference(s.contexts, e.identifier) == Some(ref) <==> IsNearest(Open(events), e.identifier, ref))
      && (forall v :: v in top.toCheck <==> IsChecked(Open(events), v))
      && (forall v :: v in top.read <==> IsRead(events, Open(events), v))
  {
    var chain, n := Open(events), |s.contexts|;
    assert Fits(events, s.contexts[n - 1], chain[..n]) && chain[..n] == chain;
    MatchesScopes(events, s.contexts);
    forall ref
      ensures GetReference(s.contexts, e.identifier) == Some(ref) <==> IsNearest(chain, e.identifier, ref)
    {
      SameReference(s.contexts, chain, e.identifier, ref);
    }
  }

  /** A usage that is no use and no `arguments` adds nothing; one that is marks exactly the contexts it adds to. */
  lemma UsageReads(events: seq<Event>, e: Event, s: State, j: nat, v: Name)
    requires s.contexts != [] && Matches(events, s.contexts) && e.Usage? && j < |s.contexts|
    ensures |Step(s, e).contexts| == |s.contexts|
    ensures v in Step(s, e).contexts[j].read <==> v in s.contexts[j].read || Adds(events, e, j, v)
  {
    UsageEffect(events, e, s);
    MatchesScopes(events, s.contexts);
    UseAddsWhereMarked(events, e, s.contexts, j, v);
    MarkedReads(s.contexts, e.name, j, v);
    ArgumentsOfFunction(s.contexts, Open(events), j);
  }

  lemma MarkedReads(contexts: seq<Context>, name: Name, j: nat, v: Name)
    requires j < |contexts|
    ensures |MarkAsRead(contexts, name)| == |contexts|
    ensures v in MarkAsRead(contexts, name)[j].read <==>
      v in contexts[j].read || (v == name && DeclarerEnd(contexts, name) <= j + 1)
  {
  }

  lemma UseAddsWhereMarked(events: seq<Event>, e: Event, contexts: seq<Context>, j: nat, v: Name)
    requires Matches(events, contexts) && e.Usage? && j < |contexts|
    ensures IsUse(events, e, v) && DeclaredBy(Open(events)[..j + 1], v) == DeclaredBy(Open(events), v) ==>
      if Marks(events, e) then v == e.name && DeclarerEnd(contexts, e.name) <= j + 1 else v in contexts[j].read
    ensures Marks(events, e) && DeclarerEnd(contexts, e.name) <= j + 1 ==>
      IsUse(events, e, e.name) && DeclaredBy(Open(events)[..j + 1], e.name) == DeclaredBy(Open(events), e.name)
  {
    var chain := Open(events);
    MatchesScopes(events, contexts);
    SameDeclarer(contexts, chain, e.name);
    DeclaredByPart(chain, j, e.name);
    assert Fits(events, contexts[j], chain[..j + 1]);
    if !Marks(events, e) && IsUse(events, e, v) && DeclaredBy(chain[..j + 1], v) == DeclaredBy(chain, v) {
      ReadReachesDown(events, chain, j, v);
    }
  }

  /** The part of a chain has the same declarer exactly when it reaches up to it. */
  lemma DeclaredByPart(chain: seq<Opened>, j: nat, v: Name)
    requires j < |chain|
    ensures DeclaredBy(chain[..j + 1], v) == DeclaredBy(chain, v) <==> DeclaredBy(chain, v) <= j + 1
  {
    var part := chain[..j + 1];
    assert forall i :: 0 <= i < |part| ==> part[i] == chain[i];
  }

  ghost predicate Marks(events: seq<Event>, e: Event) {
    e.Usage? && IsUse(events, e, e.name) && !IsRead(events, Open(events), e.name)
  }

  /** Which of the three effects a usage has. */
  lemma UsageEffect(events: seq<Event>, e: Event, s: State)
    requires s.contexts != [] && Matches(events, s.contexts) && e.Usage?
    ensures Step(s, e).contexts ==
      if Marks(events, e) then MarkAsRead(s.contexts, e.name)
      else if IsArgumentsUse(events, e) then MarkArguments(s.contexts)
      else s.contexts
    ensures !(Marks(events, e) && IsArgumentsUse(events, e))
    ensures Step(s, e).log == s.log + (if Marks(events, e)
              then [Mark(Declarer(s.contexts, e.name), e.identifier, e.name, Raises(events, e))] else [])
    ensures Raises(events, e) ==> Marks(events, e)
  {
    UsageByEvents(events, e, s);
    var reference := GetReference(s.contexts, e.identifier);
    if reference.Some? {
      assert IsNearest(Open(events), e.identifier, reference.value);
    }
  }

  lemma UsageChangesOnlyReads(events: seq<Event>, e: Event, s: State, j: nat)
    requires s.contexts != [] && Matches(events, s.contexts) && e.Usage? && j < |s.contexts|
    ensures |Step(s, e).contexts| == |s.contexts|
    ensures Step(s, e).contexts[j] == s.contexts[j].(read := Step(s, e).contexts[j].read)
  {
    UsageEffect(events, e, s);
    MatchesScopes(events, s.contexts);
    ArgumentsChangeOnlyReads(s.contexts, Open(events), j);
    MarkChangesOnlyReads(s.contexts, e.name, j);
  }

  lemma ArgumentsChangeOnlyReads(contexts: seq<Context>, chain: seq<Opened>, j: nat)
    requires SameScopes(contexts, chain) && j < |chain|
    ensures MarkArguments(contexts)[j] == contexts[j].(read := MarkArguments(contexts)[j].read)
  {
    ArgumentsOfFunction(contexts, chain, j);
  }

  lemma MarkChangesOnlyReads(contexts: seq<Context>, name: Name, j: nat)
    requires j < |contexts|
    ensures |MarkAsRead(contexts, name)| == |contexts|
    ensures MarkAsRead(contexts, name)[j] == contexts[j].(read := MarkAsRead(contexts, name)[j].read)
  {
  }

  lemma UsageKeepsMatch(events: seq<Event>, e: Event, s: State)
    requires s.contexts != [] && Matches(events, s.contexts) && e.Usage?
    ensures Matches(events + [e], Step(s, e).contexts)
  {
    var chain, contexts, longer := Open(events), Step(s, e).contexts, events + [e];
    assert longer[..|longer| - 1] == events && Open(longer) == chain;
    UsageReads(events, e, s, 0, "");
    forall j | 0 <= j < |contexts|
      ensures Fits(longer, contexts[j], chain[..j + 1])
    {
      UsageFits(events, e, s, j);
    }
  }

  lemma UsageFits(events: seq<Event>, e: Event, s: State, j: nat)
    requires s.contexts != [] && Matches(events, s.contexts) && e.Usage? && j < |s.contexts|
    ensures |Step(s, e).contexts| == |s.contexts|
    ensures Fits(events + [e], Step(s, e).contexts[j], Open(events)[..j + 1])
  {
    UsageChangesOnlyReads(events, e, s, j);
    assert Fits(events, s.contexts[j], Open(events)[..j + 1]);
    forall v
      ensures v in Step(s, e).contexts[j].read <==> IsRead(events + [e], Open(events)[..j + 1], v)
    {
      UsageReads(events, e, s, j, v);
      UsageAdds(events, e, j, v);
    }
  }

  lemma {:induction false} RunMatches(events: seq<Event>)
    ensures Matches(events, Run(events).contexts)
  {
    if events == [] {
      var base := Opened(0, Global, {}, {}, map[], true);
      assert Open([])[..1] == [base];
      assert Fits([], Initial.contexts[0], [base]);
    } else {
      var before, e := events[..|events| - 1], events[|events| - 1];
      RunMatches(before);
      assert before + [e] == events;
      if e.Usage? {
        UsageKeepsMatch(before, e, Run(before));
      } else if e.Exit? {
        ExitKeepsMatch(before, Run(before));
      } else {
        EnterKeepsMatch(before, e, Run(before));
      }
    }
  }

  /** The issues of a sequence of events, in order. */
  ghost function Raised(events: seq<Event>): seq<(IdentifierNode, Name)> {
    if events == [] then []
    else
      var before, e := events[..|events| - 1], events[|events| - 1];
      Raised(before) + if Raises(before, e) then [(e.identifier, e.name)] else []
  }

  /** The log of a run reports exactly the events that raise an issue. */
  lemma {:induction false} LogReportsWhatIsRaised(events: seq<Event>)
    ensures ReportedIssues(Run(events).log) == Raised(events)
  {
    if events != [] {
      var before, e := events[..|events| - 1], events[|events| - 1];
      var s := Run(before);
      LogReportsWhatIsRaised(before);
      if e.Usage? {
        RunMatches(before);
        UsageEffect(before, e, s);
        if Marks(before, e) {
          OneMoreMark(s.log, Mark(Declarer(s.contexts, e.name), e.identifier, e.name, Raises(before, e)));
        }
        assert s.log + [] == s.log;
      }
    }
  }

  /**
    The rule on a whole sequence of events: its issues are those of the events that reassign a
    checked name which was not read since it was declared, in order, and no others.
  */
  method CheckProgram(events: seq<Event>) returns (issues: seq<(IdentifierNode, Name)>)
    ensures issues == Raised(events)
  {
    issues := CheckEvents(events);
    LogReportsWhatIsRaised(events);
  }

  /** `function f(p) { return g(p); }` reads its parameter, and raises nothing. */
  lemma ReadRaisesNothing(scope: Scope, identifier: IdentifierNode)
    requires scope.references == map[identifier := Reference(false, false, false)]
    ensures !Raises([FunctionStart(scope, None)], Usage(identifier, "p", Function, false))
  {
    var before := [FunctionStart(scope, None)];
    var chain := Open(before);
    assert before[..0] == [] && chain == Open([]) + [Entering(before[0], 1)];
    assert |chain| == 2 && chain[0].references == map[] && chain[1].references == scope.references;
    forall ref | IsNearest(chain, identifier, ref)
      ensures !ref.isWriteOnly
    {
      var k: nat :| IsNearestAt(chain, k, identifier, ref);
      assert k == 1;
    }
  }

  /** `function f(p) { p = 1; }` reassigns it. */
  lemma ReassignmentIsRaised(scope: Scope, identifier: IdentifierNode)
    requires scope == Scope({"p"}, map[identifier := Reference(false, true, false)])
    ensures Raises([FunctionStart(scope, None)], Usage(identifier, "p", Function, false))
  {
    var before := [FunctionStart(scope, None)];
    var chain := Open(before);
    assert before[..0] == [] && chain == Open([]) + [Entering(before[0], 1)];
    assert |chain| == 2 && chain[1].references == scope.references && StaysChecked(chain, 1, "p");
    assert IsNearestAt(chain, 1, identifier, Reference(false, true, false));
    assert IsReassignment(chain, "p", Reference(false, true, false));
    assert !IsRead(before, chain, "p");
  }
}
