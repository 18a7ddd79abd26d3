/**
  The rule on nested control flow: a stack of tokens pushed and popped by the handlers.
  An else-if takes the place of the `if` it belongs to and is not popped itself.
*/
module NestedControlFlow {
  import opened Wrappers
  import opened Positions

  type Token = nat

  datatype Kind =
    | IfStatement(hasAlternate: bool)  // the alternate, if any, is the last child
    | OtherControlFlow                 // for, for-in, for-of, while, do-while, try, switch
    | Plain

  /** `token` is the first token of the node. */
  datatype Node = Node(kind: Kind, token: Token, children: seq<Node>)

  datatype Issue = Issue(node: Token, enclosing: seq<Token>)

  predicate IsElseIf(parent: Node, k: nat) {
    k < |parent.children| && parent.kind == IfStatement(true) && k == |parent.children| - 1
    && parent.children[k].kind.IfStatement?
  }

  // ----- what the rule is about, on positions in the tree -----

  function NodeAt(n: Node, path: Position): Option<Node> {
    if path == [] then Some(n)
    else if path[0] < |n.children| then NodeAt(n.children[path[0]], path[1..])
    else None
  }

  predicate IsElseIfAt(n: Node, path: Position) {
    if path == [] || path[0] >= |n.children| then false
    else if |path| == 1 then IsElseIf(n, path[0])
    else IsElseIfAt(n.children[path[0]], path[1..])
  }

  /** The control-flow statements around a position, a chain of else-ifs counting once, for its innermost member. */
  function Enclosing(n: Node, path: Position): seq<Token> {
    if path == [] || path[0] >= |n.children| then []
    else (if n.kind.Plain? || IsElseIf(n, path[0]) then [] else [n.token]) + Enclosing(n.children[path[0]], path[1..])
  }

  /** The statement at `path` is nested exactly `threshold` deep. */
  ghost predicate TooDeepAt(n: Node, path: Position, isElseIf: bool, outer: seq<Token>, threshold: int, issue: Issue) {
    && NodeAt(n, path).Some? && !NodeAt(n, path).value.kind.Plain?
    && !(if path == [] then isElseIf else IsElseIfAt(n, path))
    && |outer + Enclosing(n, path)| == threshold
    && issue == Issue(NodeAt(n, path).value.token, outer + Enclosing(n, path))
  }

  // ----- what the handlers do -----

  /** What is left on the stack when an else-if gives up the token of its `if`. */
  function Outer(stack: seq<Token>, isElseIf: bool): seq<Token> {
    if isElseIf && stack != [] then stack[..|stack| - 1] else stack
  }

  function Entered(n: Node, stack: seq<Token>, isElseIf: bool): seq<Token> {
    if n.kind.Plain? then stack else Outer(stack, isElseIf) + [n.token]
  }

  /** The innermost member of the else-if chain that starts here. */
  function LastOfChain(n: Node): Token {
    if n.children != [] && IsElseIf(n, |n.children| - 1) then LastOfChain(n.children[|n.children| - 1]) else n.token
  }

  function Left(n: Node, stack: seq<Token>, isElseIf: bool): seq<Token> {
    if isElseIf then Outer(stack, true) + [LastOfChain(n)] else stack
  }

  function Issues(n: Node, stack: seq<Token>, isElseIf: bool, threshold: int): seq<Issue>
    decreases n, 0, 0
  {
    (if !n.kind.Plain? && !isElseIf && |stack| == threshold then [Issue(n.token, stack)] else [])
    + IssuesFrom(n, 0, Entered(n, stack, isElseIf), threshold)
  }

  function IssuesFrom(n: Node, k: nat, stack: seq<Token>, threshold: int): seq<Issue>
    decreases n.children, 1, |n.children| - k
  {
    if k >= |n.children| then []
    else Issues(n.children[k], stack, IsElseIf(n, k), threshold) + IssuesFrom(n, k + 1, stack, threshold)
  }

  /** The stack behind the children from the `k`-th on: a last else-if has left the token of its chain. */
  function Behind(n: Node, k: nat, stack: seq<Token>): seq<Token> {
    if k < |n.children| && IsElseIf(n, |n.children| - 1)
    then Outer(stack, true) + [LastOfChain(n.children[|n.children| - 1])] else stack
  }

  /** Entering a node, visiting its children and leaving it, on the stack alone. */
  lemma AroundNode(n: Node, stack: seq<Token>, isElseIf: bool)
    requires isElseIf ==> n.kind.IfStatement? && stack != []
    ensures var inside := Entered(n, stack, isElseIf);
      && (!n.kind.Plain? ==> inside != [])
      && var behind := Behind(n, 0, inside);
         Left(n, stack, isElseIf)
         == if n.kind.Plain? || isElseIf || behind == [] then behind else behind[..|behind| - 1]
  {
    var inside := Entered(n, stack, isElseIf);
    if !n.kind.Plain? {
      assert Outer(inside, true) == Outer(stack, isElseIf);
      assert Behind(n, 0, inside) == Outer(stack, isElseIf) + [LastOfChain(n)];
    }
  }

  /** One child more. */
  lemma BehindChild(n: Node, k: nat, stack: seq<Token>)
    requires k < |n.children|
    ensures var next := Left(n.children[k], stack, IsElseIf(n, k));
      Behind(n, k, stack) == (if k + 1 < |n.children| then Behind(n, k + 1, next) else next)
      && (k + 1 < |n.children| ==> next == stack)
  {
  }

  lemma IssuesOfChild(n: Node, k: nat, stack: seq<Token>, threshold: int)
    requires k < |n.children|
    ensures IssuesFrom(n, k, stack, threshold)
         == Issues(n.children[k], stack, IsElseIf(n, k), threshold) + IssuesFrom(n, k + 1, stack, threshold)
    ensures k + 1 == |n.children| ==>
      IssuesFrom(n, k, stack, threshold) == Issues(n.children[k], stack, IsElseIf(n, k), threshold)
  {
  }

  class NestingRule {
    const threshold: int
    var nodeStack: seq<Token>
    var issues: seq<Issue>

    constructor (threshold: int)
      ensures this.threshold == threshold && nodeStack == [] && issues == []
    {
      this.threshold := threshold;
      nodeStack, issues := [], [];
    }

    method Pop()
      modifies this`nodeStack
      ensures nodeStack == if old(nodeStack) == [] then [] else old(nodeStack)[..|old(nodeStack)| - 1]
    {
      if |nodeStack| > 0 {
        nodeStack := nodeStack[..|nodeStack| - 1];
      }
    }

    method Enter(n: Node, isElseIf: bool)
      modifies this
      ensures nodeStack == Entered(n, old(nodeStack), isElseIf)
      ensures issues == old(issues)
        + if !n.kind.Plain? && !isElseIf && |old(nodeStack)| == threshold then [Issue(n.token, old(nodeStack))] else []
    {
      if !n.kind.Plain? {
        if isElseIf {
          Pop();
        } else if |nodeStack| == threshold {
          issues := issues + [Issue(n.token, nodeStack)];
        }
        nodeStack := nodeStack + [n.token];
      }
    }

    method Leave(n: Node, isElseIf: bool)
      modifies this`nodeStack
      ensures nodeStack == if n.kind.Plain? || isElseIf || old(nodeStack) == [] then old(nodeStack)
                           else old(nodeStack)[..|old(nodeStack)| - 1]
    {
      if !n.kind.Plain? && !isElseIf {
        Pop();
      }
    }

    /** The visit of a subtree restores the stack, up to the token that an else-if leaves in place of its `if`. */
    method Traverse(n: Node, isElseIf: bool)
      requires isElseIf ==> n.kind.IfStatement? && nodeStack != []
      modifies this
      ensures nodeStack == Left(n, old(nodeStack), isElseIf)
      ensures issues == old(issues) + Issues(n, old(nodeStack), isElseIf, threshold)
      decreases n, 1, 0
    {
      AroundNode(n, nodeStack, isElseIf);
      Enter(n, isElseIf);
      TraverseFrom(n, 0);
      Leave(n, isElseIf);
    }

    method TraverseFrom(n: Node, k: nat)
      requires k <= |n.children| && (!n.kind.Plain? ==> nodeStack != [])
      modifies this
      ensures nodeStack == Behind(n, k, old(nodeStack))
      ensures issues == old(issues) + IssuesFrom(n, k, old(nodeStack), threshold)
      decreases n.children, 2, |n.children| - k
    {
      if k < |n.children| {
        ghost var before, done := nodeStack, issues;
        BehindChild(n, k, before);
        IssuesOfChild(n, k, before, threshold);
        Traverse(n.children[k], IsElseIf(n, k));
        if k + 1 < |n.children| {
          TraverseFrom(n, k + 1);
          assert issues == done + Issues(n.children[k], before, IsElseIf(n, k), threshold)
                         + IssuesFrom(n, k + 1, before, threshold);
        }
      }
    }
  }

  // ----- the handlers report exactly the statements at the threshold -----

  lemma {:induction false} IssueHasPosition(n: Node, stack: seq<Token>, isElseIf: bool, threshold: int, issue: Issue)
    returns (path: Position)
    requires issue in Issues(n, stack, isElseIf, threshold) && (isElseIf ==> !n.kind.Plain?)
    ensures TooDeepAt(n, path, isElseIf, Outer(stack, isElseIf), threshold, issue)
    decreases n, 0, 0
  {
    var inner := Entered(n, stack, isElseIf);
    if issue in IssuesFrom(n, 0, inner, threshold) {
      var k, rest := IssueAmongHasPosition(n, 0, inner, threshold, issue);
      path := [k] + rest;
      StepDown(n, stack, isElseIf, k, rest, threshold, issue);
    } else {
      path := [];
      assert stack + [] == stack;
    }
  }

  lemma {:induction false} IssueAmongHasPosition(n: Node, k: nat, stack: seq<Token>, threshold: int, issue: Issue)
    returns (j: nat, path: Position)
    requires issue in IssuesFrom(n, k, stack, threshold)
    ensures j < |n.children|
    ensures TooDeepAt(n.children[j], path, IsElseIf(n, j), Outer(stack, IsElseIf(n, j)), threshold, issue)
    decreases n.children, 1, |n.children| - k
  {
    if issue in Issues(n.children[k], stack, IsElseIf(n, k), threshold) {
      j := k;
      path := IssueHasPosition(n.children[k], stack, IsElseIf(n, k), threshold, issue);
    } else {
      j, path := IssueAmongHasPosition(n, k + 1, stack, threshold, issue);
    }
  }

  /** A position below a child is a position below the node, with the same statements around it. */
  lemma StepDown(n: Node, stack: seq<Token>, isElseIf: bool, k: nat, rest: Position, threshold: int, issue: Issue)
    requires k < |n.children| && (isElseIf ==> !n.kind.Plain?)
    ensures TooDeepAt(n, [k] + rest, isElseIf, Outer(stack, isElseIf), threshold, issue)
       <==> TooDeepAt(n.children[k], rest, IsElseIf(n, k), Outer(Entered(n, stack, isElseIf), IsElseIf(n, k)),
                      threshold, issue)
  {
    var path, outer := [k] + rest, Outer(stack, isElseIf);
    assert path[1..] == rest;
    var own := if n.kind.Plain? || IsElseIf(n, k) then [] else [n.token];
    assert Outer(Entered(n, stack, isElseIf), IsElseIf(n, k)) == outer + own;
    assert outer + own + Enclosing(n.children[k], rest) == outer + Enclosing(n, path);
  }

  lemma {:induction false} PositionHasIssue(n: Node, path: Position, stack: seq<Token>, isElseIf: bool,
                                            threshold: int, issue: Issue)
    requires TooDeepAt(n, path, isElseIf, Outer(stack, isElseIf), threshold, issue) && (isElseIf ==> !n.kind.Plain?)
    ensures issue in Issues(n, stack, isElseIf, threshold)
    decreases |path|
  {
    if path == [] {
      assert stack + [] == stack;
    } else {
      var k, inner := path[0], Entered(n, stack, isElseIf);
      assert path == [k] + path[1..];
      StepDown(n, stack, isElseIf, k, path[1..], threshold, issue);
      PositionHasIssue(n.children[k], path[1..], inner, IsElseIf(n, k), threshold, issue);
      IssuesInclude(n, 0, k, inner, threshold, issue);
    }
  }

  lemma {:induction false} IssuesInclude(n: Node, i: nat, k: nat, stack: seq<Token>, threshold: int, issue: Issue)
    requires i <= k < |n.children| && issue in Issues(n.children[k], stack, IsElseIf(n, k), threshold)
    ensures issue in IssuesFrom(n, i, stack, threshold)
    decreases k - i
  {
    if i < k {
      IssuesInclude(n, i + 1, k, stack, threshold, issue);
    }
  }

  // ----- each issue once, in the order of entering -----

  /** The issue at a position, if there is one. */
  ghost function IssueAt(n: Node, isElseIf: bool, outer: seq<Token>, threshold: int): Position -> Option<Issue> {
    p =>
      if NodeAt(n, p).Some? && !NodeAt(n, p).value.kind.Plain? && !(if p == [] then isElseIf else IsElseIfAt(n, p))
        && |outer + Enclosing(n, p)| == threshold
      then Some(Issue(NodeAt(n, p).value.token, outer + Enclosing(n, p)))
      else None
  }

  lemma IssueAtIsTooDeepAt(n: Node, p: Position, isElseIf: bool, outer: seq<Token>, threshold: int, issue: Issue)
    ensures IssueAt(n, isElseIf, outer, threshold)(p) == Some(issue)
      <==> TooDeepAt(n, p, isElseIf, outer, threshold, issue)
  {
  }

  /** Below the children from the `k`-th on. */
  ghost function IssueFrom(n: Node, k: nat, inner: seq<Token>, threshold: int): Position -> Option<Issue> {
    p =>
      if p != [] && k <= p[0] < |n.children|
      then IssueAt(n.children[p[0]], IsElseIf(n, p[0]), Outer(inner, IsElseIf(n, p[0])), threshold)(p[1..])
      else None
  }

  lemma IssueBelow(n: Node, stack: seq<Token>, isElseIf: bool, threshold: int, p: Position)
    requires p != [] && (isElseIf ==> !n.kind.Plain?)
    ensures IssueAt(n, isElseIf, Outer(stack, isElseIf), threshold)(p)
         == IssueFrom(n, 0, Entered(n, stack, isElseIf), threshold)(p)
  {
    if p[0] < |n.children| {
      var k, rest := p[0], p[1..];
      var child, inner := n.children[k], Outer(Entered(n, stack, isElseIf), IsElseIf(n, k));
      assert p == [k] + rest;
      var a, b := IssueAt(n, isElseIf, Outer(stack, isElseIf), threshold)(p),
          IssueAt(child, IsElseIf(n, k), inner, threshold)(rest);
      if a.Some? {
        StepDown(n, stack, isElseIf, k, rest, threshold, a.value);
        IssueAtIsTooDeepAt(n, p, isElseIf, Outer(stack, isElseIf), threshold, a.value);
        IssueAtIsTooDeepAt(child, rest, IsElseIf(n, k), inner, threshold, a.value);
      }
      if b.Some? {
        StepDown(n, stack, isElseIf, k, rest, threshold, b.value);
        IssueAtIsTooDeepAt(n, p, isElseIf, Outer(stack, isElseIf), threshold, b.value);
        IssueAtIsTooDeepAt(child, rest, IsElseIf(n, k), inner, threshold, b.value);
      }
    }
  }

  lemma {:induction false} IssuesAreListed(n: Node, stack: seq<Token>, isElseIf: bool, threshold: int)
    requires isElseIf ==> !n.kind.Plain?
    ensures IsListOf(Issues(n, stack, isElseIf, threshold), IssueAt(n, isElseIf, Outer(stack, isElseIf), threshold),
                     true)
    decreases n, 0, 0
  {
    var inner := Entered(n, stack, isElseIf);
    var at, below := IssueAt(n, isElseIf, Outer(stack, isElseIf), threshold), IssueFrom(n, 0, inner, threshold);
    var own := if !n.kind.Plain? && !isElseIf && |stack| == threshold then [Issue(n.token, stack)] else [];
    IssuesFromAreListed(n, 0, inner, threshold);
    assert stack + [] == stack;
    forall p: Position | p != []
      ensures at(p) == below(p)
    {
      IssueBelow(n, stack, isElseIf, threshold, p);
    }
    RootAndBelow(own, IssuesFrom(n, 0, inner, threshold), below, at, true);
  }

  lemma {:induction false} IssuesFromAreListed(n: Node, k: nat, inner: seq<Token>, threshold: int)
    ensures IsListOf(IssuesFrom(n, k, inner, threshold), IssueFrom(n, k, inner, threshold), true)
    decreases n.children, 1, |n.children| - k
  {
    if k >= |n.children| {
      NothingIsListed(IssueFrom(n, k, inner, threshold), true);
    } else {
      var isElseIf := IsElseIf(n, k);
      IssuesAreListed(n.children[k], inner, isElseIf, threshold);
      IssuesFromAreListed(n, k + 1, inner, threshold);
      ChildThenOthers(k, Issues(n.children[k], inner, isElseIf, threshold),
                      IssueAt(n.children[k], isElseIf, Outer(inner, isElseIf), threshold),
                      IssuesFrom(n, k + 1, inner, threshold), IssueFrom(n, k + 1, inner, threshold),
                      IssueFrom(n, k, inner, threshold), true);
    }
  }

  /**
    The rule on a whole program: one issue for each statement at the threshold, in the order in
    which they are entered.
  */
  method CheckProgram(program: Node, threshold: int) returns (issues: seq<Issue>)
    ensures issues == Issues(program, [], false, threshold)
    ensures IsListOf(issues, IssueAt(program, false, [], threshold), true)
    ensures forall issue :: issue in issues <==> exists path :: TooDeepAt(program, path, false, [], threshold, issue)
  {
    var rule := new NestingRule(threshold);
    rule.Traverse(program, false);
    issues := rule.issues;
    assert issues == [] + Issues(program, [], false, threshold) == Issues(program, [], false, threshold);
    IssuesAreListed(program, [], false, threshold);
    forall issue: Issue
      ensures issue in issues <==> exists path :: TooDeepAt(program, path, false, [], threshold, issue)
    {
      if issue in issues {
        var path := IssueHasPosition(program, [], false, threshold, issue);
      }
      if path :| TooDeepAt(program, path, false, [], threshold, issue) {
        PositionHasIssue(program, path, [], false, threshold, issue);
      }
    }
  }
}
