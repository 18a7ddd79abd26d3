/**
  The rule on reassigned parameters: a chain of contexts that is extended and cut by
  traversal events, with sets of variables already read that are updated along the chain.
  The chain is a sequence with the current context last; `id` is the identity of a context.
*/
module ParameterReassignment {
  import opened Wrappers

  type Name = string
  type IdentifierNode = nat

  datatype ContextType = Catch | Function | Foreach | Global

  /**
    What the rule asks of a reference; `usedInWrite`: its own write expression mentions the
    variable or `arguments`.
  */
  datatype Reference = Reference(init: bool, isWriteOnly: bool, usedInWrite: bool)

  datatype Context = Context(id: nat, kind: ContextType, declared: set<Name>, toCheck: set<Name>, read: set<Name>,
                             references: map<IdentifierNode, Reference>)

  /** The variables a node declares, with their references. */
  datatype Scope = Scope(declared: set<Name>, references: map<IdentifierNode, Reference>)

  datatype Event =
    | FunctionStart(scope: Scope, functionName: Option<Name>)
    | GlobalStart
    | ForEachStart(scope: Scope, patternNames: set<Name>)
    | CatchStart(scope: Scope)
    | Exit  // the end of a code path, of a for-in, for-of or catch clause
    | Usage(identifier: IdentifierNode, name: Name, kind: ContextType, conditional: bool)

  /** One call of `markAsRead`: the context that declares the name, if any does, and whether an issue came with it. */
  datatype Mark = Mark(declarer: Option<nat>, identifier: IdentifierNode, name: Name, reported: bool)

  datatype State = State(contexts: seq<Context>, nextId: nat, log: seq<Mark>)

  const Initial: State := State([Context(0, Global, {}, {}, {}, map[])], 1, [])

  // ----- the chain -----

  /** One past the position of the nearest context, looking outwards from the end, that declares `v`; 0 if none does. */
  function DeclarerEnd(contexts: seq<Context>, v: Name): (n: nat)
    ensures n <= |contexts|
    ensures n > 0 ==> v in contexts[n - 1].declared
  {
    if contexts == [] then 0
    else if v in contexts[|contexts| - 1].declared then |contexts|
    else DeclarerEnd(contexts[..|contexts| - 1], v)
  }

  lemma {:induction false} NoDeclarerBehind(contexts: seq<Context>, v: Name, k: nat)
    requires DeclarerEnd(contexts, v) <= k < |contexts|
    ensures v !in contexts[k].declared
  {
    if k < |contexts| - 1 {
      NoDeclarerBehind(contexts[..|contexts| - 1], v, k);
    }
  }

  function Declarer(contexts: seq<Context>, v: Name): Option<nat> {
    var n := DeclarerEnd(contexts, v);
    if n == 0 then None else Some(contexts[n - 1].id)
  }

  function GetReference(contexts: seq<Context>, identifier: IdentifierNode): Option<Reference> {
    if contexts == [] then None
    else
      var last := contexts[|contexts| - 1];
      if identifier in last.references then Some(last.references[identifier])
      else GetReference(contexts[..|contexts| - 1], identifier)
  }

  /** `v` read in every context from position `from` on. */
  function ReadFrom(contexts: seq<Context>, v: Name, from: nat): seq<Context> {
    seq(|contexts|, k requires 0 <= k < |contexts| =>
      if k < from then contexts[k] else contexts[k].(read := contexts[k].read + {v}))
  }

  /** Reading goes outwards up to the declaring context, or to the outermost one. */
  function MarkAsRead(contexts: seq<Context>, v: Name): seq<Context> {
    var n := DeclarerEnd(contexts, v);
    ReadFrom(contexts, v, if n == 0 then 0 else n - 1)
  }

  /** The innermost enclosing function has all its own variables read. */
  function MarkArguments(contexts: seq<Context>): (r: seq<Context>)
    ensures |r| == |contexts|
  {
    if contexts == [] then []
    else
      var n := |contexts| - 1;
      if contexts[n].kind.Function? then contexts[n := contexts[n].(read := contexts[n].read + contexts[n].declared)]
      else MarkArguments(contexts[..n]) + [contexts[n]]
  }

  // ----- the events -----

  function Push(s: State, kind: ContextType, declared: set<Name>, references: map<IdentifierNode, Reference>,
                exempt: set<Name>): State
    requires s.contexts != []
  {
    var parent := s.contexts[|s.contexts| - 1];
    var context := Context(s.nextId, kind, declared, parent.toCheck + declared - exempt, parent.read - declared,
                           references);
    s.(contexts := s.contexts + [context], nextId := s.nextId + 1)
  }

  function Check(s: State, identifier: IdentifierNode, name: Name, conditional: bool): State
    requires s.contexts != []
  {
    var current := s.contexts[|s.contexts| - 1];
    var reference := GetReference(s.contexts, identifier);
    if reference.Some? && !reference.value.init && name !in current.read then
      var wrong := name in current.toCheck && reference.value.isWriteOnly && !reference.value.usedInWrite;
      if wrong && conditional then s
      else s.(contexts := MarkAsRead(s.contexts, name),
                     log := s.log + [Mark(Declarer(s.contexts, name), identifier, name, wrong)])
    else if name == "arguments" then s.(contexts := MarkArguments(s.contexts))
    else s
  }

  function Step(s: State, e: Event): State
    requires s.contexts != []
  {
    match e
    case FunctionStart(scope, functionName) =>
      Push(s, Function, scope.declared, scope.references, if functionName.Some? then {functionName.value} else {})
    case GlobalStart =>
      s.(contexts := s.contexts + [Context(s.nextId, Global, {}, {}, {}, map[])], nextId := s.nextId + 1)
    case ForEachStart(scope, patternNames) => Push(s, Foreach, scope.declared + patternNames, scope.references, {})
    case CatchStart(scope) => Push(s, Catch, scope.declared, scope.references, {})
    case Exit => if |s.contexts| == 1 then s else s.(contexts := s.contexts[..|s.contexts| - 1])
    case Usage(identifier, name, kind, conditional) =>
      if s.contexts[|s.contexts| - 1].kind != kind then s else Check(s, identifier, name, conditional)
  }

  /** The states of every run have a context to work on. */
  function Run(events: seq<Event>): (s: State)
    ensures s.contexts != []
  {
    if events == [] then Initial else Step(Run(events[..|events| - 1]), events[|events| - 1])
  }

  // ----- what every event keeps -----

  /** The chain as the context at position `k` sees it. */
  function Upto(contexts: seq<Context>, k: nat): seq<Context>
    requires k < |contexts|
  {
    contexts[..k + 1]
  }

  ghost predicate WellFormed(s: State) {
    && s.contexts != []
    && (forall k :: 0 <= k < |s.contexts| ==> s.contexts[k].id < s.nextId)
    && (forall j, k :: 0 <= j < k < |s.contexts| ==> s.contexts[j].id != s.contexts[k].id)
    && (forall m :: 0 <= m < |s.log| && s.log[m].declarer.Some? ==> s.log[m].declarer.value < s.nextId)
    && (forall k, v :: 0 <= k < |s.contexts| && v in s.contexts[k].toCheck ==> DeclarerEnd(Upto(s.contexts, k), v) > 0)
  }

  /** A name once marked for its declaring context stays read wherever it could still be checked. */
  ghost predicate MarkedStaysRead(s: State) {
    forall m :: 0 <= m < |s.log| ==> ReadThroughout(s.contexts, s.log[m])
  }

  ghost predicate ReadThroughout(contexts: seq<Context>, mark: Mark) {
    forall k :: 0 <= k < |contexts| ==> StaysRead(contexts, mark, k)
  }

  ghost predicate StaysRead(contexts: seq<Context>, mark: Mark, k: nat)
    requires k < |contexts|
  {
    mark.declarer.Some? && Declarer(Upto(contexts, k), mark.name) == mark.declarer && mark.name in contexts[k].toCheck
    ==> mark.name in contexts[k].read
  }

  /** An issue is only ever raised for the first use of a name in its declaring context. */
  ghost predicate ReportsComeFirst(log: seq<Mark>) {
    forall j :: 0 <= j < |log| && log[j].reported ==> FirstUse(log[..j], log[j])
  }

  ghost predicate FirstUse(log: seq<Mark>, mark: Mark) {
    mark.declarer.Some? && forall i :: 0 <= i < |log| && log[i].declarer == mark.declarer ==> log[i].name != mark.name
  }

  ghost predicate Inv(s: State) {
    WellFormed(s) && MarkedStaysRead(s) && ReportsComeFirst(s.log)
  }

  lemma {:induction false} DeclarerOfPrefix(contexts: seq<Context>, c: Context, v: Name)
    ensures DeclarerEnd(contexts + [c], v) == if v in c.declared then |contexts| + 1 else DeclarerEnd(contexts, v)
  {
    assert (contexts + [c])[..|contexts|] == contexts;
  }

  /** A context that only lets through what its parent lets through. */
  ghost predicate Inherits(c: Context, parent: Context) {
    forall v :: v in c.toCheck && v !in c.declared ==> v in parent.toCheck && (v in parent.read ==> v in c.read)
  }

  function Extended(s: State, c: Context): State {
    s.(contexts := s.contexts + [c], nextId := s.nextId + 1)
  }

  lemma {:induction false} ExtendKeepsWellFormed(s: State, c: Context)
    requires WellFormed(s) && c.id == s.nextId && Inherits(c, s.contexts[|s.contexts| - 1])
    ensures WellFormed(Extended(s, c))
  {
    var contexts, n := s.contexts + [c], |s.contexts|;
    assert Upto(s.contexts, n - 1) == s.contexts && Upto(contexts, n) == contexts;
    forall k, v | 0 <= k <= n && v in contexts[k].toCheck
      ensures DeclarerEnd(Upto(contexts, k), v) > 0
    {
      if k < n {
        assert Upto(contexts, k) == Upto(s.contexts, k);
        assert contexts[k] == s.contexts[k];
      } else {
        DeclarerOfPrefix(s.contexts, c, v);
        assert v !in c.declared ==> DeclarerEnd(Upto(s.contexts, n - 1), v) > 0;
      }
    }
  }

  lemma {:induction false} ExtendKeepsRead(s: State, c: Context, mark: Mark, k: nat)
    requires WellFormed(s) && c.id == s.nextId && Inherits(c, s.contexts[|s.contexts| - 1]) && k <= |s.contexts|
    requires ReadThroughout(s.contexts, mark)
    requires mark.declarer.Some? ==> mark.declarer.value < s.nextId
    ensures StaysRead(s.contexts + [c], mark, k)
  {
    var contexts, n := s.contexts + [c], |s.contexts|;
    if k < n {
      assert Upto(contexts, k) == Upto(s.contexts, k);
      assert StaysRead(s.contexts, mark, k);
    } else {
      assert StaysRead(s.contexts, mark, n - 1);
      NewContextIsRead(s, c, mark);
    }
  }

  lemma NewContextIsRead(s: State, c: Context, mark: Mark)
    requires WellFormed(s) && c.id == s.nextId && Inherits(c, s.contexts[|s.contexts| - 1])
    requires StaysRead(s.contexts, mark, |s.contexts| - 1) && (mark.declarer.Some? ==> mark.declarer.value < s.nextId)
    ensures StaysRead(s.contexts + [c], mark, |s.contexts|)
  {
    var contexts, n := s.contexts + [c], |s.contexts|;
    assert Upto(s.contexts, n - 1) == s.contexts && Upto(contexts, n) == contexts;
    DeclarerOfPrefix(s.contexts, c, mark.name);
  }

  lemma {:induction false} ExtendKeepsInv(s: State, c: Context)
    requires Inv(s) && c.id == s.nextId && Inherits(c, s.contexts[|s.contexts| - 1])
    ensures Inv(Extended(s, c))
  {
    ExtendKeepsWellFormed(s, c);
    forall m, k | 0 <= m < |s.log| && 0 <= k <= |s.contexts|
      ensures StaysRead(s.contexts + [c], s.log[m], k)
    {
      assert ReadThroughout(s.contexts, s.log[m]);
      ExtendKeepsRead(s, c, s.log[m], k);
    }
  }

  lemma {:induction false} ExitKeepsInv(s: State)
    requires Inv(s) && |s.contexts| > 1
    ensures Inv(s.(contexts := s.contexts[..|s.contexts| - 1]))
  {
    var s' := s.(contexts := s.contexts[..|s.contexts| - 1]);
    forall k, v | 0 <= k < |s'.contexts| && v in s'.contexts[k].toCheck
      ensures DeclarerEnd(Upto(s'.contexts, k), v) > 0
    {
      assert Upto(s'.contexts, k) == Upto(s.contexts, k);
    }
    forall m, k | 0 <= m < |s.log| && 0 <= k < |s'.contexts|
      ensures StaysRead(s'.contexts, s.log[m], k)
    {
      assert Upto(s'.contexts, k) == Upto(s.contexts, k);
      assert ReadThroughout(s.contexts, s.log[m]) && StaysRead(s.contexts, s.log[m], k);
    }
  }

  /** The same chain with larger `read` sets. */
  ghost predicate Grown(a: seq<Context>, b: seq<Context>) {
    |a| == |b| && forall k :: 0 <= k < |a| ==> b[k] == a[k].(read := b[k].read) && a[k].read <= b[k].read
  }

  lemma {:induction false} GrownDeclarer(a: seq<Context>, b: seq<Context>, v: Name)
    requires Grown(a, b)
    ensures DeclarerEnd(a, v) == DeclarerEnd(b, v) && Declarer(a, v) == Declarer(b, v)
  {
    if a != [] {
      GrownDeclarer(a[..|a| - 1], b[..|b| - 1], v);
    }
  }

  lemma {:induction false} GrowKeepsInv(s: State, contexts: seq<Context>)
    requires Inv(s) && Grown(s.contexts, contexts)
    ensures Inv(s.(contexts := contexts))
  {
    forall k, v | 0 <= k < |contexts| && v in contexts[k].toCheck
      ensures DeclarerEnd(Upto(contexts, k), v) > 0
    {
      GrownDeclarer(Upto(s.contexts, k), Upto(contexts, k), v);
    }
    forall m, k | 0 <= m < |s.log| && 0 <= k < |contexts|
      ensures StaysRead(contexts, s.log[m], k)
    {
      GrownDeclarer(Upto(s.contexts, k), Upto(contexts, k), s.log[m].name);
      assert ReadThroughout(s.contexts, s.log[m]) && StaysRead(s.contexts, s.log[m], k);
    }
  }

  lemma {:induction false} MarkArgumentsGrows(contexts: seq<Context>)
    ensures Grown(contexts, MarkArguments(contexts))
  {
    if contexts != [] {
      MarkArgumentsGrows(contexts[..|contexts| - 1]);
    }
  }

  /** Whoever has the same declarer as the end of the chain sits at the declarer or behind it. */
  lemma {:induction false} SameDeclarer(contexts: seq<Context>, v: Name, k: nat)
    requires k < |contexts|
    requires forall i, j :: 0 <= i < j < |contexts| ==> contexts[i].id != contexts[j].id
    requires Declarer(contexts, v).Some? && Declarer(Upto(contexts, k), v) == Declarer(contexts, v)
    ensures DeclarerEnd(contexts, v) <= k + 1
  {
    var n, m := DeclarerEnd(contexts, v), DeclarerEnd(Upto(contexts, k), v);
    assert contexts[m - 1].id == contexts[n - 1].id;
  }

  lemma {:induction false} MarkReadsUpToDeclarer(s: State, identifier: IdentifierNode, v: Name, reported: bool)
    requires WellFormed(s)
    ensures Grown(s.contexts, MarkAsRead(s.contexts, v))
    ensures ReadThroughout(MarkAsRead(s.contexts, v), Mark(Declarer(s.contexts, v), identifier, v, reported))
  {
    var contexts, mark := MarkAsRead(s.contexts, v), Mark(Declarer(s.contexts, v), identifier, v, reported);
    forall k | 0 <= k < |contexts|
      ensures StaysRead(contexts, mark, k)
    {
      GrownDeclarer(Upto(s.contexts, k), Upto(contexts, k), v);
      if mark.declarer.Some? && Declarer(Upto(contexts, k), v) == mark.declarer {
        SameDeclarer(s.contexts, v, k);
      }
    }
  }

  /** A name that can still be checked and is not read was not marked before. */
  lemma {:induction false} UnreadIsFirstUse(s: State, identifier: IdentifierNode, v: Name, reported: bool)
    requires Inv(s)
    requires var last := s.contexts[|s.contexts| - 1]; v in last.toCheck && v !in last.read
    ensures FirstUse(s.log, Mark(Declarer(s.contexts, v), identifier, v, reported))
  {
    var n := |s.contexts|;
    assert Upto(s.contexts, n - 1) == s.contexts;
    forall i | 0 <= i < |s.log| && s.log[i].declarer == Declarer(s.contexts, v)
      ensures s.log[i].name != v
    {
      assert ReadThroughout(s.contexts, s.log[i]) && StaysRead(s.contexts, s.log[i], n - 1);
    }
  }

  lemma {:induction false} LogKeepsInv(s: State, mark: Mark)
    requires Inv(s) && ReadThroughout(s.contexts, mark) && (mark.reported ==> FirstUse(s.log, mark))
    requires mark.declarer.Some? ==> mark.declarer.value < s.nextId
    ensures Inv(s.(log := s.log + [mark]))
  {
    var log := s.log + [mark];
    forall j | 0 <= j < |log| && log[j].reported
      ensures FirstUse(log[..j], log[j])
    {
      if j < |s.log| {
        assert log[..j] == s.log[..j] && log[j] == s.log[j];
      } else {
        assert log[..j] == s.log;
      }
    }
  }

  lemma {:induction false} MarkKeepsInv(s: State, identifier: IdentifierNode, v: Name, reported: bool)
    requires Inv(s)
    requires reported ==> var last := s.contexts[|s.contexts| - 1]; v in last.toCheck && v !in last.read
    ensures Inv(s.(contexts := MarkAsRead(s.contexts, v),
                   log := s.log + [Mark(Declarer(s.contexts, v), identifier, v, reported)]))
  {
    MarkReadsUpToDeclarer(s, identifier, v, reported);
    GrowKeepsInv(s, MarkAsRead(s.contexts, v));
    if reported {
      UnreadIsFirstUse(s, identifier, v, reported);
    }
    LogKeepsInv(s.(contexts := MarkAsRead(s.contexts, v)), Mark(Declarer(s.contexts, v), identifier, v, reported));
  }

  lemma {:induction false} StepKeepsInv(s: State, e: Event)
    requires Inv(s)
    ensures Inv(Step(s, e))
  {
    match e
    case FunctionStart(_, _) =>
      var s' := Step(s, e);
      ExtendKeepsInv(s, s'.contexts[|s.contexts|]);
    case GlobalStart =>
      var s' := Step(s, e);
      ExtendKeepsInv(s, s'.contexts[|s.contexts|]);
    case ForEachStart(_, _) =>
      var s' := Step(s, e);
      ExtendKeepsInv(s, s'.contexts[|s.contexts|]);
    case CatchStart(_) =>
      var s' := Step(s, e);
      ExtendKeepsInv(s, s'.contexts[|s.contexts|]);
    case Exit =>
      if |s.contexts| > 1 {
        ExitKeepsInv(s);
      }
    case Usage(identifier, name, kind, conditional) =>
      var current := s.contexts[|s.contexts| - 1];
      if current.kind == kind {
        var reference := GetReference(s.contexts, identifier);
        if reference.Some? && !reference.value.init && name !in current.read {
          var wrong := name in current.toCheck && reference.value.isWriteOnly && !reference.value.usedInWrite;
          if !(wrong && conditional) {
            MarkKeepsInv(s, identifier, name, wrong);
          }
        } else if name == "arguments" {
          MarkArgumentsGrows(s.contexts);
          GrowKeepsInv(s, MarkArguments(s.contexts));
        }
      }
  }

  lemma {:induction false} InvHoldsInEveryRun(events: seq<Event>)
    ensures Inv(Run(events))
    decreases |events|
  {
    if events != [] {
      InvHoldsInEveryRun(events[..|events| - 1]);
      StepKeepsInv(Run(events[..|events| - 1]), events[|events| - 1]);
    }
  }

  /**
    In every run, however its exits are balanced: an issue names a declaring context, no
    earlier use of that name in that context was counted, and so no name is reported twice
    for the same declaring context.
  */
  lemma ReportedOnceAndFirst(events: seq<Event>, i: nat, j: nat)
    requires i < |Run(events).log| && j < |Run(events).log| && i != j
    requires Run(events).log[j].reported
    ensures var log := Run(events).log;
            (log[i].declarer == log[j].declarer && log[i].name == log[j].name ==> j < i && !log[i].reported)
  {
    InvHoldsInEveryRun(events);
    var log := Run(events).log;
    assert FirstUse(log[..j], log[j]);
    if j < i && log[i].reported {
      assert FirstUse(log[..i], log[i]);
      assert log[..i][j] == log[j];
    } else if i < j {
      assert log[..j][i] == log[i];
    }
  }

  // ----- the rule object -----

  /** The issues that a log reports, in order. */
  function ReportedIssues(log: seq<Mark>): seq<(IdentifierNode, Name)> {
    if log == [] then []
    else
      var last := log[|log| - 1];
      ReportedIssues(log[..|log| - 1]) + if last.reported then [(last.identifier, last.name)] else []
  }

  lemma UsageIsLogged(s: State, e: Event)
    requires e.Usage? && s.contexts != []
    ensures var log := Step(s, e).log;
      log == s.log || exists mark :: log == s.log + [mark] && mark.identifier == e.identifier && mark.name == e.name
  {
  }

  lemma OneMoreMark(log: seq<Mark>, mark: Mark)
    ensures ReportedIssues(log + [mark])
         == ReportedIssues(log) + if mark.reported then [(mark.identifier, mark.name)] else []
  {
    assert (log + [mark])[..|log|] == log;
  }

  lemma IssuesFollowLog(s: State, e: Event, before: seq<(IdentifierNode, Name)>, after: seq<(IdentifierNode, Name)>)
    requires e.Usage? && s.contexts != [] && before == ReportedIssues(s.log)
    requires var log := Step(s, e).log;
      after == if |log| > |s.log| && log[|s.log|].reported then before + [(e.identifier, e.name)] else before
    ensures after == ReportedIssues(Step(s, e).log)
  {
    UsageIsLogged(s, e);
    if Step(s, e).log != s.log {
      var mark :| Step(s, e).log == s.log + [mark] && mark.identifier == e.identifier && mark.name == e.name;
      OneMoreMark(s.log, mark);
    }
  }

  class ReassignmentRule {
    var contexts: seq<Context>
    var nextId: nat
    ghost var log: seq<Mark>
    var issues: seq<(IdentifierNode, Name)>

    ghost function Now(): State
      reads this
    {
      State(contexts, nextId, log)
    }

    constructor ()
      ensures Now() == Initial && issues == []
    {
      contexts, nextId, log, issues := Initial.contexts, 1, [], [];
    }

    method PushContext(kind: ContextType, declared: set<Name>, references: map<IdentifierNode, Reference>,
                       exempt: set<Name>)
      requires contexts != []
      modifies this
      ensures Now() == Push(old(Now()), kind, declared, references, exempt) && issues == old(issues)
    {
      var parent := contexts[|contexts| - 1];
      var toCheck := parent.toCheck + declared - exempt;
      contexts := contexts + [Context(nextId, kind, declared, toCheck, parent.read - declared, references)];
      nextId := nextId + 1;
    }

    method PopContext()
      requires contexts != []
      modifies this
      ensures Now() == Step(old(Now()), Exit) && issues == old(issues)
    {
      if |contexts| > 1 {
        contexts := contexts[..|contexts| - 1];
      }
    }

    /** Follows the parents until a context that declares the name. */
    method MarkRead(name: Name)
      requires contexts != []
      modifies this`contexts
      ensures contexts == MarkAsRead(old(contexts), name)
    {
      var k := |contexts| - 1;
      contexts := contexts[k := contexts[k].(read := contexts[k].read + {name})];
      while k > 0 && name !in contexts[k].declared
        invariant 0 <= k < |contexts| == |old(contexts)|
        invariant DeclarerEnd(old(contexts), name) <= k + 1
        invariant contexts == ReadFrom(old(contexts), name, k)
      {
        k := k - 1;
        contexts := contexts[k := contexts[k].(read := contexts[k].read + {name})];
      }
      if name in contexts[k].declared && DeclarerEnd(old(contexts), name) <= k {
        NoDeclarerBehind(old(contexts), name, k);
      }
    }

    /** Follows the parents until a function. */
    method MarkAllFunctionArgumentsAsRead()
      modifies this`contexts
      ensures contexts == MarkArguments(old(contexts))
    {
      var k := |contexts|;
      assert contexts[..k] == contexts;
      while k > 0 && !contexts[k - 1].kind.Function?
        invariant 0 <= k <= |contexts|
        invariant MarkArguments(contexts) == MarkArguments(contexts[..k]) + contexts[k..]
      {
        k := k - 1;
        assert contexts[..k + 1][..k] == contexts[..k];
        assert contexts[k..] == [contexts[k]] + contexts[k + 1..];
      }
      if k > 0 {
        var f := contexts[k - 1];
        assert contexts == contexts[..k] + contexts[k..];
        contexts := contexts[k - 1 := f.(read := f.read + f.declared)];
      }
    }

    method CheckIdentifierUsage(identifier: IdentifierNode, name: Name, kind: ContextType, conditional: bool)
      requires contexts != []
      modifies this
      ensures Now() == Step(old(Now()), Usage(identifier, name, kind, conditional))
      ensures issues ==
        if |log| > |old(log)| && log[|old(log)|].reported then old(issues) + [(identifier, name)] else old(issues)
    {
      var current := contexts[|contexts| - 1];
      if current.kind != kind {
        return;
      }
      var reference := GetReference(contexts, identifier);
      if reference.Some? && !reference.value.init && name !in current.read {
        var wrong := name in current.toCheck && reference.value.isWriteOnly && !reference.value.usedInWrite;
        if wrong {
          if conditional {
            return;
          }
          issues := issues + [(identifier, name)];
        }
        log := log + [Mark(Declarer(contexts, name), identifier, name, wrong)];
        MarkRead(name);
      } else if name == "arguments" {
        MarkAllFunctionArgumentsAsRead();
      }
    }

    /**
      The handlers together: the object goes through the states of the run of its events, and raises
      what the log reports.
    */
    method Handle(e: Event)
      requires contexts != [] && issues == ReportedIssues(log)
      modifies this
      ensures Now() == Step(old(Now()), e) && contexts != []
      ensures issues == ReportedIssues(log)
    {
      match e {
        case FunctionStart(scope, functionName) =>
          PushContext(Function, scope.declared, scope.references,
                      if functionName.Some? then {functionName.value} else {});
        case GlobalStart =>
          contexts := contexts + [Context(nextId, Global, {}, {}, {}, map[])];
          nextId := nextId + 1;
        case ForEachStart(scope, patternNames) =>
          PushContext(Foreach, scope.declared + patternNames, scope.references, {});
        case CatchStart(scope) => PushContext(Catch, scope.declared, scope.references, {});
        case Exit => PopContext();
        case Usage(identifier, name, kind, conditional) =>
          CheckIdentifierUsage(identifier, name, kind, conditional);
          IssuesFollowLog(old(Now()), e, old(issues), issues);
      }
    }
  }

  /** The issues of a whole run are those that its log reports, no two of a name for the same declaring context. */
  method CheckEvents(events: seq<Event>) returns (issues: seq<(IdentifierNode, Name)>)
    ensures issues == ReportedIssues(Run(events).log)
    ensures var log := Run(events).log;
      forall i, j :: 0 <= i < j < |log| && log[i].reported && log[j].reported ==>
        log[i].declarer != log[j].declarer || log[i].name != log[j].name
  {
    var rule := new ReassignmentRule();
    for i := 0 to |events|
      invariant rule.Now() == Run(events[..i]) && rule.contexts != []
      invariant rule.issues == ReportedIssues(rule.log)
    {
      assert events[..i + 1][..i] == events[..i];
      rule.Handle(events[i]);
    }
    assert events[..|events|] == events;
    issues := rule.issues;
    ghost var log := Run(events).log;
    forall i, j | 0 <= i < j < |log| && log[i].reported && log[j].reported
      ensures log[i].declarer != log[j].declarer || log[i].name != log[j].name
    {
      ReportedOnceAndFirst(events, i, j);
    }
  }
}
