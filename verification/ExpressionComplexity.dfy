/**
  The rule on expressions with too many conditional operators: a stack with one level per
  scope-like node, updated when the visitor enters and leaves nodes.  `id` names a node
  and the operator token that belongs to it.
*/
module ExpressionComplexity {
  import opened Wrappers
  import opened Positions

  type Token = nat

  datatype NodeType =
    | ConditionalExpression
    | LogicalExpression
    | FunctionExpression
    | FunctionDeclaration(generator: bool)
    | ObjectExpression
    | CallExpression
    | JSXElement
    | OtherType

  datatype Node = Node(id: Token, nodeType: NodeType, children: seq<Node>)

  predicate IsConditionalLike(t: NodeType) {
    t.ConditionalExpression? || t.LogicalExpression?
  }

  predicate IsScopeLike(t: NodeType) {
    || t.FunctionExpression? || (t.FunctionDeclaration? && t.generator)
    || t.ObjectExpression? || t.CallExpression? || t.JSXElement?
  }

  // ----- what the rule is about -----

  /** The conditional nodes at and below a node that can be reached without entering a scope-like node. */
  function Operators(n: Node): seq<Token>
    decreases n, 0
  {
    if IsConditionalLike(n.nodeType) then [n.id] + OperatorsOf(n.children)
    else if IsScopeLike(n.nodeType) then []
    else OperatorsOf(n.children)
  }

  function OperatorsOf(ns: seq<Node>): seq<Token>
    decreases ns, 0
  {
    if ns == [] then [] else Operators(ns[0]) + OperatorsOf(ns[1..])
  }

  /** An outermost conditional with the operators counted for it. */
  datatype Group = Group(node: Token, operators: seq<Token>)

  predicate InsideBelow(n: Node, inside: bool) {
    if IsConditionalLike(n.nodeType) then true else if IsScopeLike(n.nodeType) then false else inside
  }

  /** The groups completed while a node is visited, `inside` telling whether it lies in a conditional of its scope. */
  function Groups(n: Node, inside: bool): seq<Group>
    decreases n, 0
  {
    GroupsOf(n.children, InsideBelow(n, inside))
    + if IsConditionalLike(n.nodeType) && !inside then [Group(n.id, Operators(n))] else []
  }

  function GroupsOf(ns: seq<Node>, inside: bool): seq<Group>
    decreases ns, 0
  {
    if ns == [] then [] else Groups(ns[0], inside) + GroupsOf(ns[1..], inside)
  }

  /** The groups that are reported. */
  function TooComplex(groups: seq<Group>, max: int): seq<Group> {
    if groups == [] then []
    else (if |groups[0].operators| > max then [groups[0]] else []) + TooComplex(groups[1..], max)
  }

  lemma {:induction false} TooComplexAppend(a: seq<Group>, b: seq<Group>, max: int)
    ensures TooComplex(a + b, max) == TooComplex(a, max) + TooComplex(b, max)
  {
    if a == [] {
      assert a + b == b;
    } else {
      assert (a + b)[1..] == a[1..] + b;
      TooComplexAppend(a[1..], b, max);
    }
  }

  lemma {:induction false} InTooComplex(groups: seq<Group>, max: int, g: Group)
    ensures g in TooComplex(groups, max) <==> g in groups && |g.operators| > max
  {
    if groups != [] {
      InTooComplex(groups[1..], max, g);
    }
  }

  // ----- groups, stated on positions in the tree -----

  function NodeAt(n: Node, path: Position): Option<Node> {
    if path == [] then Some(n)
    else if path[0] < |n.children| then NodeAt(n.children[path[0]], path[1..])
    else None
  }

  /** Whether the node at `path` lies in a conditional node without a scope-like node in between. */
  predicate InsideAt(n: Node, path: Position, inside: bool) {
    if path != [] && path[0] < |n.children| then InsideAt(n.children[path[0]], path[1..], InsideBelow(n, inside))
    else inside
  }

  /** `g` is the group of the outermost conditional at `path`. */
  ghost predicate GroupAt(n: Node, path: Position, inside: bool, g: Group) {
    && NodeAt(n, path).Some? && IsConditionalLike(NodeAt(n, path).value.nodeType) && !InsideAt(n, path, inside)
    && g == Group(NodeAt(n, path).value.id, Operators(NodeAt(n, path).value))
  }

  lemma {:induction false} GroupHasPosition(n: Node, inside: bool, g: Group) returns (path: Position)
    requires g in Groups(n, inside)
    ensures GroupAt(n, path, inside, g)
    decreases n, 0
  {
    if g in GroupsOf(n.children, InsideBelow(n, inside)) {
      var k, rest := GroupAmongHasPosition(n.children, InsideBelow(n, inside), g);
      path := [k] + rest;
      assert path[1..] == rest;
    } else {
      path := [];
    }
  }

  lemma {:induction false} GroupAmongHasPosition(ns: seq<Node>, inside: bool, g: Group) returns (k: nat, path: Position)
    requires g in GroupsOf(ns, inside)
    ensures k < |ns| && GroupAt(ns[k], path, inside, g)
    decreases ns, 0
  {
    if g in Groups(ns[0], inside) {
      k := 0;
      path := GroupHasPosition(ns[0], inside, g);
    } else {
      k, path := GroupAmongHasPosition(ns[1..], inside, g);
      k := k + 1;
    }
  }

  lemma {:induction false} PositionHasGroup(n: Node, path: Position, inside: bool, g: Group)
    requires GroupAt(n, path, inside, g)
    ensures g in Groups(n, inside)
    decreases |path|
  {
    if path != [] {
      PositionHasGroup(n.children[path[0]], path[1..], InsideBelow(n, inside), g);
      GroupsInclude(n.children, path[0], InsideBelow(n, inside), g);
    }
  }

  lemma {:induction false} GroupsInclude(ns: seq<Node>, k: nat, inside: bool, g: Group)
    requires k < |ns| && g in Groups(ns[k], inside)
    ensures g in GroupsOf(ns, inside)
  {
    if k > 0 {
      GroupsInclude(ns[1..], k - 1, inside, g);
    }
  }

  /** The groups are those of the outermost conditionals of the tree, and no others. */
  lemma GroupsAreTheOutermostConditionals(n: Node, inside: bool, g: Group)
    ensures g in Groups(n, inside) <==> exists path :: GroupAt(n, path, inside, g)
  {
    if g in Groups(n, inside) {
      var path := GroupHasPosition(n, inside, g);
    }
    if path :| GroupAt(n, path, inside, g) {
      PositionHasGroup(n, path, inside, g);
    }
  }

  // ----- nothing is counted twice or left out -----

  function Conditionals(n: Node): multiset<Token>
    decreases n, 0
  {
    (if IsConditionalLike(n.nodeType) then multiset{n.id} else multiset{}) + ConditionalsOf(n.children)
  }

  function ConditionalsOf(ns: seq<Node>): multiset<Token>
    decreases ns, 0
  {
    if ns == [] then multiset{} else Conditionals(ns[0]) + ConditionalsOf(ns[1..])
  }

  function AllOperators(groups: seq<Group>): multiset<Token> {
    if groups == [] then multiset{} else multiset(groups[0].operators) + AllOperators(groups[1..])
  }

  lemma {:induction false} AllOperatorsAppend(a: seq<Group>, b: seq<Group>)
    ensures AllOperators(a + b) == AllOperators(a) + AllOperators(b)
  {
    if a == [] {
      assert a + b == b;
    } else {
      assert (a + b)[1..] == a[1..] + b;
      AllOperatorsAppend(a[1..], b);
    }
  }

  /** Every conditional node is an operator of exactly one group, or of the conditional around the tree. */
  lemma {:induction false} OperatorsAreConserved(n: Node, inside: bool)
    ensures AllOperators(Groups(n, inside)) + (if inside then multiset(Operators(n)) else multiset{}) == Conditionals(n)
    decreases n, 0
  {
    OperatorsAreConservedIn(n.children, InsideBelow(n, inside));
    if IsConditionalLike(n.nodeType) {
      AddConditional(n, inside);
    } else {
      assert Groups(n, inside) == GroupsOf(n.children, InsideBelow(n, inside));
    }
  }

  /** A conditional adds itself, to a group of its own or to the one around it. */
  lemma AddConditional(n: Node, inside: bool)
    requires IsConditionalLike(n.nodeType)
    requires AllOperators(GroupsOf(n.children, true)) + multiset(OperatorsOf(n.children)) == ConditionalsOf(n.children)
    ensures AllOperators(Groups(n, inside)) + (if inside then multiset(Operators(n)) else multiset{}) == Conditionals(n)
  {
    var inner, own := GroupsOf(n.children, true), [Group(n.id, Operators(n))];
    assert multiset(Operators(n)) == multiset{n.id} + multiset(OperatorsOf(n.children));
    assert AllOperators(own) == multiset(Operators(n)) by { assert own[1..] == []; }
    AllOperatorsAppend(inner, own);
    assert Groups(n, inside) == if inside then inner else inner + own;
  }

  lemma {:induction false} OperatorsAreConservedIn(ns: seq<Node>, inside: bool)
    ensures AllOperators(GroupsOf(ns, inside)) + (if inside then multiset(OperatorsOf(ns)) else multiset{})
      == ConditionalsOf(ns)
    decreases ns, 0
  {
    if ns != [] {
      OperatorsAreConserved(ns[0], inside);
      OperatorsAreConservedIn(ns[1..], inside);
      AllOperatorsAppend(Groups(ns[0], inside), GroupsOf(ns[1..], inside));
    }
  }

  // ----- the stack -----

  datatype Level = Level(nestedLevel: int, operators: seq<Token>)

  function Top(levels: seq<Level>): Level
    requires levels != []
  {
    levels[|levels| - 1]
  }

  function SetTop(levels: seq<Level>, top: Level): seq<Level>
    requires levels != []
  {
    levels[|levels| - 1 := top]
  }

  function Entered(levels: seq<Level>, t: NodeType, id: Token): seq<Level>
    requires levels != []
  {
    if IsConditionalLike(t) then SetTop(levels, Level(Top(levels).nestedLevel + 1, Top(levels).operators + [id]))
    else if IsScopeLike(t) then levels + [Level(0, [])]
    else levels
  }

  function Left(levels: seq<Level>, t: NodeType): seq<Level>
    requires levels != []
  {
    if IsConditionalLike(t) then
      var top := Top(levels);
      SetTop(levels, Level(top.nestedLevel - 1, if top.nestedLevel == 1 then [] else top.operators))
    else if IsScopeLike(t) then levels[..|levels| - 1]
    else levels
  }

  /** The group that leaving a node completes, if any. */
  function Completed(levels: seq<Level>, t: NodeType, id: Token): seq<Group>
    requires levels != []
  {
    if IsConditionalLike(t) && Top(levels).nestedLevel == 1 then [Group(id, Top(levels).operators)] else []
  }

  /** The stack after operators were met: they add to the conditional being counted, if there is one. */
  function Counted(levels: seq<Level>, ops: seq<Token>): seq<Level>
    requires levels != []
  {
    if Top(levels).nestedLevel == 0 then levels
    else SetTop(levels, Level(Top(levels).nestedLevel, Top(levels).operators + ops))
  }

  /** Between two expressions of a scope nothing is counted. */
  predicate Idle(levels: seq<Level>) {
    levels != [] && Top(levels).nestedLevel >= 0 && (Top(levels).nestedLevel == 0 ==> Top(levels).operators == [])
  }

  lemma CountedTwice(levels: seq<Level>, a: seq<Token>, b: seq<Token>)
    requires levels != []
    ensures Counted(Counted(levels, a), b) == Counted(levels, a + b)
  {
    assert Top(levels).operators + a + b == Top(levels).operators + (a + b);
  }

  lemma CountedNone(levels: seq<Level>)
    requires levels != []
    ensures Counted(levels, []) == levels
  {
    assert Top(levels).operators + [] == Top(levels).operators;
  }

  /** Entering a conditional, meeting the operators `inner` below it and leaving it, on the stack alone. */
  lemma AroundConditional(levels: seq<Level>, t: NodeType, id: Token, inner: seq<Token>)
    requires Idle(levels) && IsConditionalLike(t)
    ensures var inside := Counted(Entered(levels, t, id), inner);
      && Idle(inside) && Left(inside, t) == Counted(levels, [id] + inner)
      && Completed(inside, t, id) == if Top(levels).nestedLevel == 0 then [Group(id, [id] + inner)] else []
  {
    var known, level := Top(levels).operators, Top(levels).nestedLevel;
    assert Counted(Entered(levels, t, id), inner) == SetTop(levels, Level(level + 1, known + [id] + inner));
    assert known + [id] + inner == known + ([id] + inner);
    assert known == [] ==> known + ([id] + inner) == [id] + inner;
  }

  lemma AroundScope(levels: seq<Level>)
    requires Idle(levels)
    ensures (levels + [Level(0, [])])[..|levels|] == levels
  {
  }

  // ----- the handlers -----

  class ComplexityRule {
    const max: int
    var statementLevel: seq<Level>
    var issues: seq<Group>
    ghost var groups: seq<Group>

    constructor (max: int)
      ensures this.max == max && statementLevel == [Level(0, [])] && issues == [] && groups == []
    {
      this.max := max;
      statementLevel, issues, groups := [Level(0, [])], [], [];
    }

    /** The issues are the groups that are too large. */
    ghost predicate Valid()
      reads this
    {
      Idle(statementLevel) && issues == TooComplex(groups, max)
    }

    method Enter(t: NodeType, id: Token)
      requires statementLevel != []
      modifies this`statementLevel
      ensures statementLevel == Entered(old(statementLevel), t, id)
    {
      if IsConditionalLike(t) {
        var expr := Top(statementLevel);
        expr := expr.(nestedLevel := expr.nestedLevel + 1);
        expr := expr.(operators := expr.operators + [id]);
        statementLevel := SetTop(statementLevel, expr);
      } else if IsScopeLike(t) {
        statementLevel := statementLevel + [Level(0, [])];
      }
    }

    method Leave(t: NodeType, id: Token)
      requires statementLevel != [] && issues == TooComplex(groups, max)
      modifies this
      ensures statementLevel == Left(old(statementLevel), t)
      ensures groups == old(groups) + Completed(old(statementLevel), t, id) && issues == TooComplex(groups, max)
    {
      if IsConditionalLike(t) {
        var expr := Top(statementLevel);
        expr := expr.(nestedLevel := expr.nestedLevel - 1);
        if expr.nestedLevel == 0 {
          var group := Group(id, expr.operators);
          if |expr.operators| > max {
            issues := issues + [group];
          }
          TooComplexAppend(groups, [group], max);
          assert TooComplex([group], max) == if |group.operators| > max then [group] else [];
          groups := groups + [group];
          expr := expr.(operators := []);
        }
        statementLevel := SetTop(statementLevel, expr);
      } else if IsScopeLike(t) {
        statementLevel := statementLevel[..|statementLevel| - 1];
      }
    }

    /** The visit of a subtree: the stack below is restored, and the groups are those of the tree. */
    method Traverse(n: Node)
      requires Valid()
      modifies this
      ensures Valid() && statementLevel == Counted(old(statementLevel), Operators(n))
      ensures groups == old(groups) + Groups(n, Top(old(statementLevel)).nestedLevel > 0)
      decreases n, 1
    {
      ghost var before, done := statementLevel, groups;
      ghost var below := InsideBelow(n, Top(before).nestedLevel > 0);
      Enter(n.nodeType, n.id);
      TraverseAll(n.children);
      assert groups == done + GroupsOf(n.children, below);
      if IsConditionalLike(n.nodeType) {
        AroundConditional(before, n.nodeType, n.id, OperatorsOf(n.children));
      } else {
        AroundScope(before);
        CountedNone(before);
      }
      Leave(n.nodeType, n.id);
      assert groups == done + Groups(n, Top(before).nestedLevel > 0);
    }

    method TraverseAll(ns: seq<Node>)
      requires Valid()
      modifies this
      ensures Valid() && statementLevel == Counted(old(statementLevel), OperatorsOf(ns))
      ensures groups == old(groups) + GroupsOf(ns, Top(old(statementLevel)).nestedLevel > 0)
      decreases ns, 0
    {
      if ns == [] {
        CountedNone(statementLevel);
      } else {
        ghost var before, done := statementLevel, groups;
        ghost var inside := Top(before).nestedLevel > 0;
        CountedTwice(before, Operators(ns[0]), OperatorsOf(ns[1..]));
        Traverse(ns[0]);
        assert (Top(statementLevel).nestedLevel > 0) == inside;
        TraverseAll(ns[1..]);
        assert groups == done + (Groups(ns[0], inside) + GroupsOf(ns[1..], inside));
      }
    }
  }

  // ----- each group once, in the order of leaving -----

  /** What is reported at a position: the group of an outermost conditional that has too many operators. */
  function ReportedAt(n: Node, inside: bool, max: int): Position -> Option<Group> {
    p =>
      if NodeAt(n, p).Some? && IsConditionalLike(NodeAt(n, p).value.nodeType) && !InsideAt(n, p, inside)
        && |Operators(NodeAt(n, p).value)| > max
      then Some(Group(NodeAt(n, p).value.id, Operators(NodeAt(n, p).value)))
      else None
  }

  /** Below siblings that are numbered from `first` on. */
  function ReportedAmong(ns: seq<Node>, first: nat, inside: bool, max: int): Position -> Option<Group> {
    p => if p != [] && first <= p[0] < first + |ns| then ReportedAt(ns[p[0] - first], inside, max)(p[1..]) else None
  }

  lemma {:induction false} GroupsAreListed(n: Node, inside: bool, max: int)
    ensures IsListOf(TooComplex(Groups(n, inside), max), ReportedAt(n, inside, max), false)
    decreases n, 0
  {
    var below := InsideBelow(n, inside);
    var inner := GroupsOf(n.children, below);
    var own := if IsConditionalLike(n.nodeType) && !inside then [Group(n.id, Operators(n))] else [];
    GroupsAmongAreListed(n.children, 0, below, max);
    TooComplexAppend(inner, own, max);
    forall p: Position | p != []
      ensures ReportedAt(n, inside, max)(p) == ReportedAmong(n.children, 0, below, max)(p)
    {
      ReportedBelow(n, inside, max, p);
    }
    ReportedRoot(n, inside, max, own);
    RootAndBelow(TooComplex(own, max), TooComplex(inner, max), ReportedAmong(n.children, 0, below, max),
                 ReportedAt(n, inside, max), false);
  }

  lemma ReportedBelow(n: Node, inside: bool, max: int, p: Position)
    requires p != []
    ensures ReportedAt(n, inside, max)(p) == ReportedAmong(n.children, 0, InsideBelow(n, inside), max)(p)
  {
  }

  lemma ReportedRoot(n: Node, inside: bool, max: int, own: seq<Group>)
    requires own == if IsConditionalLike(n.nodeType) && !inside then [Group(n.id, Operators(n))] else []
    ensures |TooComplex(own, max)| <= 1
    ensures ReportedAt(n, inside, max)([])
      == (if TooComplex(own, max) == [] then None else Some(TooComplex(own, max)[0]))
  {
    if own != [] {
      assert own[1..] == [];
      assert TooComplex(own, max) == if |own[0].operators| > max then [own[0]] else [];
    }
  }

  lemma {:induction false} GroupsAmongAreListed(ns: seq<Node>, first: nat, inside: bool, max: int)
    ensures IsListOf(TooComplex(GroupsOf(ns, inside), max), ReportedAmong(ns, first, inside, max), false)
    decreases ns, 0
  {
    if ns == [] {
      NothingIsListed(ReportedAmong(ns, first, inside, max), false);
    } else {
      GroupsAreListed(ns[0], inside, max);
      GroupsAmongAreListed(ns[1..], first + 1, inside, max);
      TooComplexAppend(Groups(ns[0], inside), GroupsOf(ns[1..], inside), max);
      ChildThenOthers(first, TooComplex(Groups(ns[0], inside), max), ReportedAt(ns[0], inside, max),
                      TooComplex(GroupsOf(ns[1..], inside), max), ReportedAmong(ns[1..], first + 1, inside, max),
                      ReportedAmong(ns, first, inside, max), false);
    }
  }

  // ----- the operators of a group -----

  /** No scope-like node is on the way to the position. */
  predicate IsReached(n: Node, p: Position)
    decreases |p|
  {
    p == [] || (p[0] < |n.children| && !IsScopeLike(n.nodeType) && IsReached(n.children[p[0]], p[1..]))
  }

  /** The operator at a position of the same scope. */
  function OperatorAt(n: Node): Position -> Option<Token> {
    p =>
      if NodeAt(n, p).Some? && IsConditionalLike(NodeAt(n, p).value.nodeType) && IsReached(n, p)
      then Some(NodeAt(n, p).value.id) else None
  }

  function OperatorAmong(ns: seq<Node>, first: nat): Position -> Option<Token> {
    p => if p != [] && first <= p[0] < first + |ns| then OperatorAt(ns[p[0] - first])(p[1..]) else None
  }

  /** The operators counted are, in order, those of the conditional nodes at the positions of the scope, each once. */
  lemma {:induction false} OperatorsAreListed(n: Node)
    ensures IsListOf(Operators(n), OperatorAt(n), true)
    decreases n, 0
  {
    if IsScopeLike(n.nodeType) {
      NothingIsListed(OperatorAt(n), true);
    } else {
      var own := if IsConditionalLike(n.nodeType) then [n.id] else [];
      OperatorsAmongAreListed(n.children, 0);
      forall p: Position | p != []
        ensures OperatorAt(n)(p) == OperatorAmong(n.children, 0)(p)
      {
        OperatorBelow(n, p);
      }
      RootAndBelow(own, OperatorsOf(n.children), OperatorAmong(n.children, 0), OperatorAt(n), true);
      assert [] + OperatorsOf(n.children) == OperatorsOf(n.children);
    }
  }

  lemma OperatorBelow(n: Node, p: Position)
    requires p != [] && !IsScopeLike(n.nodeType)
    ensures OperatorAt(n)(p) == OperatorAmong(n.children, 0)(p)
  {
  }

  lemma {:induction false} OperatorsAmongAreListed(ns: seq<Node>, first: nat)
    ensures IsListOf(OperatorsOf(ns), OperatorAmong(ns, first), true)
    decreases ns, 0
  {
    if ns == [] {
      NothingIsListed(OperatorAmong(ns, first), true);
    } else {
      OperatorsAreListed(ns[0]);
      OperatorsAmongAreListed(ns[1..], first + 1);
      ChildThenOthers(first, Operators(ns[0]), OperatorAt(ns[0]), OperatorsOf(ns[1..]),
                      OperatorAmong(ns[1..], first + 1),
                      OperatorAmong(ns, first), true);
    }
  }

  /**
    The rule on a whole program: one issue for each outermost conditional with too many operators,
    in the order in which they are left.
  */
  method CheckProgram(program: Node, max: int) returns (issues: seq<Group>)
    ensures issues == TooComplex(Groups(program, false), max)
    ensures IsListOf(issues, ReportedAt(program, false, max), false)
    ensures forall g :: g in issues <==> |g.operators| > max && exists path :: GroupAt(program, path, false, g)
  {
    var rule := new ComplexityRule(max);
    rule.Traverse(program);
    issues := rule.issues;
    assert rule.groups == [] + Groups(program, false) == Groups(program, false);
    GroupsAreListed(program, false, max);
    forall g: Group
      ensures g in issues <==> |g.operators| > max && exists path :: GroupAt(program, path, false, g)
    {
      InTooComplex(rule.groups, max, g);
      GroupsAreTheOutermostConditionals(program, false, g);
    }
  }
}
