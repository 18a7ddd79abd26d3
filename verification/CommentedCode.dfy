/**
  Grouping the comments of a file before they are examined for commented-out code, and
  balancing the braces of a group.
*/
module CommentedCode {
  datatype CommentType = Block | Line

  /** `codeLine` is the line of the first code token behind the comment, or -1 when none follows. */
  datatype Comment = Comment(kind: CommentType, value: string, line: nat, codeLine: int)

  datatype Group = Group(value: string, nodes: seq<Comment>)

  predicate AreAdjacentLineComments(previous: Comment, next: Comment) {
    previous.line + 1 == next.line && (previous.codeLine == -1 || previous.codeLine > next.line)
  }

  /**
    Comments on consecutive lines are adjacent unless code comes behind the first one before the
    second one's line ends.
  */
  lemma AdjacentMeansNoCodeBetween(previous: Comment, next: Comment, codeLines: seq<int>)
    requires forall i, j :: 0 <= i < j < |codeLines| ==> codeLines[i] <= codeLines[j]
    requires forall i :: 0 <= i < |codeLines| ==> codeLines[i] >= 0
    requires previous.codeLine == if codeLines == [] then -1 else codeLines[0]
    ensures AreAdjacentLineComments(previous, next) <==>
      previous.line + 1 == next.line && forall l :: l in codeLines ==> l > next.line
  {
    if codeLines != [] {
      assert codeLines[0] in codeLines;
    }
  }

  function JoinValues(nodes: seq<Comment>): string {
    if nodes == [] then ""
    else if |nodes| == 1 then nodes[0].value
    else nodes[0].value + "\n" + JoinValues(nodes[1..])
  }

  function LineGroup(nodes: seq<Comment>): Group {
    Group(JoinValues(nodes), nodes)
  }

  // ----- what a grouping must be -----

  function OfKind(comments: seq<Comment>, kind: CommentType): seq<Comment> {
    if comments == [] then [] else
      var n := |comments| - 1;
      OfKind(comments[..n], kind) + if comments[n].kind == kind then [comments[n]] else []
  }

  /** The comments of the groups of one kind, in order. */
  function Members(groups: seq<Group>, kind: CommentType): seq<Comment> {
    if groups == [] then []
    else Members(groups[..|groups| - 1], kind) + OfKind(groups[|groups| - 1].nodes, kind)
  }

  predicate IsBlockGroup(g: Group) {
    |g.nodes| == 1 && g.nodes[0].kind.Block? && g.value == g.nodes[0].value
  }

  /** Line comments, each adjacent to the one before. */
  predicate IsLineGroup(g: Group) {
    && g.nodes != [] && g.value == JoinValues(g.nodes)
    && (forall i :: 0 <= i < |g.nodes| ==> g.nodes[i].kind.Line?)
    && (forall i :: 0 <= i < |g.nodes| - 1 ==> AreAdjacentLineComments(g.nodes[i], g.nodes[i + 1]))
  }

  function LineGroups(groups: seq<Group>): seq<Group> {
    if groups == [] then [] else
      var n := |groups| - 1;
      LineGroups(groups[..n]) + if IsBlockGroup(groups[n]) then [] else [groups[n]]
  }

  /** Between two consecutive line groups adjacency fails. */
  predicate SplitWhereNotAdjacent(groups: seq<Group>) {
    forall i :: 0 <= i < |groups| - 1 && groups[i].nodes != [] && groups[i + 1].nodes != [] ==>
      !AreAdjacentLineComments(groups[i].nodes[|groups[i].nodes| - 1], groups[i + 1].nodes[0])
  }

  ghost predicate IsGrouping(groups: seq<Group>, comments: seq<Comment>) {
    && (forall i :: 0 <= i < |groups| ==> IsBlockGroup(groups[i]) || IsLineGroup(groups[i]))
    && Members(groups, Block) == OfKind(comments, Block)
    && Members(groups, Line) == OfKind(comments, Line)
    && SplitWhereNotAdjacent(LineGroups(groups))
  }

  function AllNodes(groups: seq<Group>): multiset<Comment> {
    if groups == [] then multiset{} else AllNodes(groups[..|groups| - 1]) + multiset(groups[|groups| - 1].nodes)
  }

  lemma {:induction false} KindsMakeUp(comments: seq<Comment>)
    ensures multiset(OfKind(comments, Block)) + multiset(OfKind(comments, Line)) == multiset(comments)
    decreases |comments|
  {
    if comments != [] {
      var prefix, c := SplitLast(comments);
      KindsMakeUp(prefix);
      OneMoreKind(prefix, c);
    }
  }

  lemma SplitLast(comments: seq<Comment>) returns (prefix: seq<Comment>, c: Comment)
    requires comments != []
    ensures comments == prefix + [c] && |prefix| < |comments|
  {
    prefix, c := comments[..|comments| - 1], comments[|comments| - 1];
  }

  lemma OneMoreKind(comments: seq<Comment>, c: Comment)
    requires multiset(OfKind(comments, Block)) + multiset(OfKind(comments, Line)) == multiset(comments)
    ensures multiset(OfKind(comments + [c], Block)) + multiset(OfKind(comments + [c], Line)) == multiset(comments + [c])
  {
    OfKindSnoc(comments, c, Block);
    OfKindSnoc(comments, c, Line);
    OneMore(comments, OfKind(comments, Block), OfKind(comments, Line), c);
    assert OfKind(comments, Block) + [] == OfKind(comments, Block);
    assert OfKind(comments, Line) + [] == OfKind(comments, Line);
  }

  lemma OneMore(all: seq<Comment>, blocks: seq<Comment>, lines: seq<Comment>, c: Comment)
    requires multiset(blocks) + multiset(lines) == multiset(all)
    ensures multiset(blocks + [c]) + multiset(lines) == multiset(all + [c])
    ensures multiset(blocks) + multiset(lines + [c]) == multiset(all + [c])
  {
  }

  lemma {:induction false} MembersMakeUp(groups: seq<Group>)
    ensures multiset(Members(groups, Block)) + multiset(Members(groups, Line)) == AllNodes(groups)
  {
    if groups != [] {
      MembersMakeUp(groups[..|groups| - 1]);
      KindsMakeUp(groups[|groups| - 1].nodes);
    }
  }

  /** A grouping has every comment exactly as often as the file. */
  lemma GroupingConservesComments(groups: seq<Group>, comments: seq<Comment>)
    requires IsGrouping(groups, comments)
    ensures AllNodes(groups) == multiset(comments)
  {
    MembersMakeUp(groups);
    KindsMakeUp(comments);
  }

  /** The values of a group are joined by line feeds. */
  lemma {:induction false} JoinedByLineFeeds(a: seq<Comment>, b: seq<Comment>)
    requires a != [] && b != []
    ensures JoinValues(a + b) == JoinValues(a) + "\n" + JoinValues(b)
  {
    if |a| == 1 {
      assert (a + b)[1..] == b;
    } else {
      assert (a + b)[1..] == a[1..] + b;
      JoinedByLineFeeds(a[1..], b);
    }
  }

  // ----- the order of the groups -----

  /**
    Group `g` is complete when comment `d` is met: a block comment by itself, the block comments
    before it being those of the groups before; line comments when the next line comment is not
    theirs, or at the end.
  */
  ghost predicate CompleteAt(groups: seq<Group>, g: nat, d: nat, comments: seq<Comment>)
    requires g < |groups|
  {
    && d <= |comments|
    && if IsBlockGroup(groups[g])
       then d < |comments| && comments[d] == groups[g].nodes[0]
         && OfKind(comments[..d], Block) == Members(groups[..g], Block)
       else (d < |comments| ==> comments[d].kind.Line?) && OfKind(comments[..d], Line) == Members(groups[..g + 1], Line)
  }

  /** The groups come in the order in which they are complete, at the comments numbered by `done`. */
  ghost predicate InOrderOfCompletion(groups: seq<Group>, done: seq<nat>, comments: seq<Comment>) {
    && |done| == |groups|
    && (forall g, h :: 0 <= g < h < |done| ==> done[g] < done[h])
    && (forall g :: 0 <= g < |done| ==> CompleteAt(groups, g, done[g], comments))
  }

  lemma OneMoreComplete(groups: seq<Group>, done: seq<nat>, comments: seq<Comment>, next: Group, d: nat)
    requires InOrderOfCompletion(groups, done, comments) && forall g :: 0 <= g < |done| ==> done[g] < d
    requires CompleteAt(groups + [next], |groups|, d, comments)
    ensures InOrderOfCompletion(groups + [next], done + [d], comments)
  {
    var longer := groups + [next];
    forall g | 0 <= g < |groups|
      ensures CompleteAt(longer, g, done[g], comments)
    {
      assert longer[..g] == groups[..g] && longer[..g + 1] == groups[..g + 1];
      assert CompleteAt(groups, g, done[g], comments);
    }
  }

  lemma BlockIsComplete(groups: seq<Group>, current: seq<Comment>, comments: seq<Comment>, i: nat)
    requires i < |comments| && comments[i].kind.Block? && Grouped(groups, current, comments[..i])
    ensures CompleteAt(groups + [Group(comments[i].value, [comments[i]])], |groups|, i, comments)
  {
    assert (groups + [Group(comments[i].value, [comments[i]])])[..|groups|] == groups;
  }

  lemma LineGroupIsComplete(groups: seq<Group>, current: seq<Comment>, comments: seq<Comment>, i: nat)
    requires i <= |comments| && (i < |comments| ==> comments[i].kind.Line?)
    requires current != [] && Grouped(groups, current, comments[..i])
    ensures CompleteAt(groups + [LineGroup(current)], |groups|, i, comments)
  {
    var longer := groups + [LineGroup(current)];
    CurrentIsFinished(groups, current);
    assert longer[..|groups| + 1] == longer;
  }

  // ----- building it -----

  lemma OfKindSnoc(comments: seq<Comment>, c: Comment, kind: CommentType)
    ensures OfKind(comments + [c], kind) == OfKind(comments, kind) + if c.kind == kind then [c] else []
  {
    assert (comments + [c])[..|comments|] == comments;
  }

  lemma MembersSnoc(groups: seq<Group>, g: Group, kind: CommentType)
    ensures Members(groups + [g], kind) == Members(groups, kind) + OfKind(g.nodes, kind)
  {
    assert (groups + [g])[..|groups|] == groups;
  }

  lemma LineGroupsSnoc(groups: seq<Group>, g: Group)
    ensures LineGroups(groups + [g]) == LineGroups(groups) + if IsBlockGroup(g) then [] else [g]
  {
    assert (groups + [g])[..|groups|] == groups;
  }

  lemma {:induction false} OneKind(comments: seq<Comment>, kind: CommentType, other: CommentType)
    requires forall i :: 0 <= i < |comments| ==> comments[i].kind == kind
    requires kind != other
    ensures OfKind(comments, kind) == comments && OfKind(comments, other) == []
  {
    if comments != [] {
      var n := |comments| - 1;
      OneKind(comments[..n], kind, other);
      assert comments == comments[..n] + [comments[n]];
    }
  }

  /** The state of the loop: finished groups, and the current one, which is the next line group unless it is empty. */
  ghost predicate Grouped(groups: seq<Group>, current: seq<Comment>, comments: seq<Comment>) {
    && (forall i :: 0 <= i < |groups| ==> IsBlockGroup(groups[i]) || IsLineGroup(groups[i]))
    && Members(groups, Block) == OfKind(comments, Block)
    && Members(groups, Line) + current == OfKind(comments, Line)
    && (current == [] ==> LineGroups(groups) == [])
    && (current != [] ==> IsLineGroup(LineGroup(current)))
    && SplitWhereNotAdjacent(LineGroups(groups) + if current == [] then [] else [LineGroup(current)])
  }

  lemma SplitExtended(groups: seq<Group>, current: seq<Comment>, c: Comment)
    requires current != [] && SplitWhereNotAdjacent(groups + [LineGroup(current)])
    ensures SplitWhereNotAdjacent(groups + [LineGroup(current + [c])])
  {
    var was, now := groups + [LineGroup(current)], groups + [LineGroup(current + [c])];
    forall i | 0 <= i < |now| - 1 && now[i].nodes != [] && now[i + 1].nodes != []
      ensures !AreAdjacentLineComments(now[i].nodes[|now[i].nodes| - 1], now[i + 1].nodes[0])
    {
      assert was[i] == now[i] && was[i + 1].nodes[0] == now[i + 1].nodes[0];
    }
  }

  lemma SplitStarted(groups: seq<Group>, current: seq<Comment>, c: Comment)
    requires current != [] && SplitWhereNotAdjacent(groups + [LineGroup(current)])
    requires !AreAdjacentLineComments(current[|current| - 1], c)
    ensures SplitWhereNotAdjacent(groups + [LineGroup(current)] + [LineGroup([c])])
  {
    var was := groups + [LineGroup(current)];
    var now := was + [LineGroup([c])];
    forall i | 0 <= i < |now| - 1 && now[i].nodes != [] && now[i + 1].nodes != []
      ensures !AreAdjacentLineComments(now[i].nodes[|now[i].nodes| - 1], now[i + 1].nodes[0])
    {
      assert was[i] == now[i];
      assert i < |groups| ==> was[i + 1] == now[i + 1];
    }
  }

  lemma BlockKeepsGrouped(groups: seq<Group>, current: seq<Comment>, comments: seq<Comment>, c: Comment)
    requires Grouped(groups, current, comments) && c.kind.Block?
    ensures Grouped(groups + [Group(c.value, [c])], current, comments + [c])
  {
    BlockIsFinished(groups, c);
    OfKindSnoc(comments, c, Block);
    OfKindSnoc(comments, c, Line);
    assert OfKind(comments, Line) + [] == OfKind(comments, Line);
  }

  lemma BlockIsFinished(groups: seq<Group>, c: Comment)
    requires c.kind.Block?
    ensures var g := Group(c.value, [c]);
      && Members(groups + [g], Block) == Members(groups, Block) + [c]
      && Members(groups + [g], Line) == Members(groups, Line)
      && LineGroups(groups + [g]) == LineGroups(groups) && IsBlockGroup(g)
  {
    var g := Group(c.value, [c]);
    OneKind(g.nodes, Block, Line);
    MembersSnoc(groups, g, Block);
    MembersSnoc(groups, g, Line);
    LineGroupsSnoc(groups, g);
    assert Members(groups, Line) + [] == Members(groups, Line);
    assert LineGroups(groups) + [] == LineGroups(groups);
  }

  lemma LineGroupGrows(current: seq<Comment>, c: Comment)
    requires c.kind.Line? && (current != [] ==> IsLineGroup(LineGroup(current)))
    requires current == [] || AreAdjacentLineComments(current[|current| - 1], c)
    ensures IsLineGroup(LineGroup(current + [c]))
  {
    var g := LineGroup(current);
    assert g.nodes == current;
  }

  lemma LineExtendsCurrent(groups: seq<Group>, current: seq<Comment>, comments: seq<Comment>, c: Comment)
    requires Grouped(groups, current, comments) && c.kind.Line?
    requires current == [] || AreAdjacentLineComments(current[|current| - 1], c)
    ensures Grouped(groups, current + [c], comments + [c])
  {
    OfKindSnoc(comments, c, Block);
    OfKindSnoc(comments, c, Line);
    assert Members(groups, Line) + current + [c] == Members(groups, Line) + (current + [c]);
    if current != [] {
      SplitExtended(LineGroups(groups), current, c);
    }
    LineGroupGrows(current, c);
  }

  lemma CurrentIsFinished(groups: seq<Group>, current: seq<Comment>)
    requires current != [] && IsLineGroup(LineGroup(current))
    requires forall i :: 0 <= i < |groups| ==> IsBlockGroup(groups[i]) || IsLineGroup(groups[i])
    ensures var g := LineGroup(current);
      && Members(groups + [g], Block) == Members(groups, Block)
      && Members(groups + [g], Line) == Members(groups, Line) + current
      && LineGroups(groups + [g]) == LineGroups(groups) + [g]
  {
    var g := LineGroup(current);
    OneKind(current, Line, Block);
    MembersSnoc(groups, g, Block);
    MembersSnoc(groups, g, Line);
    LineGroupsSnoc(groups, g);
    assert Members(groups, Block) + [] == Members(groups, Block);
  }

  lemma LineStartsGroup(groups: seq<Group>, current: seq<Comment>, comments: seq<Comment>, c: Comment)
    requires Grouped(groups, current, comments) && c.kind.Line?
    requires current != [] && !AreAdjacentLineComments(current[|current| - 1], c)
    ensures Grouped(groups + [LineGroup(current)], [c], comments + [c])
  {
    CurrentIsFinished(groups, current);
    OfKindSnoc(comments, c, Block);
    OfKindSnoc(comments, c, Line);
    SplitStarted(LineGroups(groups), current, c);
    assert IsLineGroup(LineGroup([c]));
    assert OfKind(comments, Block) + [] == OfKind(comments, Block);
  }

  lemma FinishedIsGrouping(groups: seq<Group>, current: seq<Comment>, comments: seq<Comment>)
    requires Grouped(groups, current, comments)
    ensures IsGrouping(groups + if current == [] then [] else [LineGroup(current)], comments)
  {
    if current == [] {
      assert groups + [] == groups && Members(groups, Line) + [] == Members(groups, Line);
      assert LineGroups(groups) + [] == LineGroups(groups);
    } else {
      CurrentIsFinished(groups, current);
    }
  }

  lemma TakeOneMore(comments: seq<Comment>, i: nat)
    requires i < |comments|
    ensures comments[..i + 1] == comments[..i] + [comments[i]]
  {
  }

  /** The state of the loop before comment `i`. */
  ghost predicate Building(groups: seq<Group>, current: seq<Comment>, done: seq<nat>, comments: seq<Comment>, i: nat) {
    && i <= |comments| && Grouped(groups, current, comments[..i])
    && InOrderOfCompletion(groups, done, comments) && forall g :: 0 <= g < |done| ==> done[g] < i
  }

  lemma BlockStep(groups: seq<Group>, current: seq<Comment>, done: seq<nat>, comments: seq<Comment>, i: nat)
    requires Building(groups, current, done, comments, i) && i < |comments| && comments[i].kind.Block?
    ensures Building(groups + [Group(comments[i].value, [comments[i]])], current, done + [i], comments, i + 1)
  {
    TakeOneMore(comments, i);
    BlockKeepsGrouped(groups, current, comments[..i], comments[i]);
    BlockIsComplete(groups, current, comments, i);
    OneMoreComplete(groups, done, comments, Group(comments[i].value, [comments[i]]), i);
  }

  lemma ExtendStep(groups: seq<Group>, current: seq<Comment>, done: seq<nat>, comments: seq<Comment>, i: nat)
    requires Building(groups, current, done, comments, i) && i < |comments| && comments[i].kind.Line?
    requires current == [] || AreAdjacentLineComments(current[|current| - 1], comments[i])
    ensures Building(groups, current + [comments[i]], done, comments, i + 1)
  {
    TakeOneMore(comments, i);
    LineExtendsCurrent(groups, current, comments[..i], comments[i]);
  }

  lemma StartStep(groups: seq<Group>, current: seq<Comment>, done: seq<nat>, comments: seq<Comment>, i: nat)
    requires Building(groups, current, done, comments, i) && i < |comments| && comments[i].kind.Line?
    requires current != [] && !AreAdjacentLineComments(current[|current| - 1], comments[i])
    ensures Building(groups + [LineGroup(current)], [comments[i]], done + [i], comments, i + 1)
  {
    TakeOneMore(comments, i);
    LineStartsGroup(groups, current, comments[..i], comments[i]);
    LineGroupIsComplete(groups, current, comments, i);
    OneMoreComplete(groups, done, comments, LineGroup(current), i);
  }

  lemma LastStep(groups: seq<Group>, current: seq<Comment>, done: seq<nat>, comments: seq<Comment>, all: seq<Group>)
    requires Building(groups, current, done, comments, |comments|)
    requires all == if current == [] then groups else groups + [LineGroup(current)]
    ensures IsGrouping(all, comments) && AllNodes(all) == multiset(comments)
    ensures exists done' :: InOrderOfCompletion(all, done', comments)
  {
    assert comments[..|comments|] == comments;
    FinishedIsGrouping(groups, current, comments);
    assert groups + [] == groups;
    GroupingConservesComments(all, comments);
    if current != [] {
      LineGroupIsComplete(groups, current, comments, |comments|);
      OneMoreComplete(groups, done, comments, LineGroup(current), |comments|);
    }
  }

  method GetGroupedComments(comments: seq<Comment>) returns (groups: seq<Group>)
    ensures IsGrouping(groups, comments) && AllNodes(groups) == multiset(comments)
    ensures exists done :: InOrderOfCompletion(groups, done, comments)
  {
    groups := [];
    var currentGroup: seq<Comment> := [];
    ghost var done: seq<nat> := [];
    for i := 0 to |comments|
      invariant Building(groups, currentGroup, done, comments, i)
    {
      var comment := comments[i];
      if comment.kind.Block? {
        BlockStep(groups, currentGroup, done, comments, i);
        groups, done := groups + [Group(comment.value, [comment])], done + [i];
      } else if |currentGroup| == 0 || AreAdjacentLineComments(currentGroup[|currentGroup| - 1], comment) {
        ExtendStep(groups, currentGroup, done, comments, i);
        currentGroup := currentGroup + [comment];
      } else {
        StartStep(groups, currentGroup, done, comments, i);
        groups, done := groups + [LineGroup(currentGroup)], done + [i];
        currentGroup := [comment];
      }
    }
    ghost var finished := groups;
    if |currentGroup| > 0 {
      groups := groups + [LineGroup(currentGroup)];
    }
    LastStep(finished, currentGroup, done, comments, groups);
  }

  // ----- braces -----

  function Count(s: string, c: char): nat {
    if s == "" then 0 else (if s[0] == c then 1 else 0) + Count(s[1..], c)
  }

  function Repeat(n: nat, c: char): string {
    if n == 0 then "" else [c] + Repeat(n - 1, c)
  }

  function InjectMissingBraces(value: string): string {
    var missing := Count(value, '{') as int - Count(value, '}') as int;
    if missing > 0 then value + Repeat(missing, '}')
    else if missing < 0 then Repeat(-missing, '{') + value
    else value
  }

  lemma {:induction false} CountAppend(a: string, b: string, c: char)
    ensures Count(a + b, c) == Count(a, c) + Count(b, c)
  {
    if a == "" {
      assert a + b == b;
    } else {
      assert (a + b)[1..] == a[1..] + b;
      CountAppend(a[1..], b, c);
    }
  }

  lemma {:induction false} CountRepeat(n: nat, d: char, c: char)
    ensures Count(Repeat(n, d), c) == if c == d then n else 0
  {
    if n > 0 {
      CountRepeat(n - 1, d, c);
      assert ([d] + Repeat(n - 1, d))[1..] == Repeat(n - 1, d);
    }
  }

  /** The braces are balanced in number, the text is kept in one piece, and a second pass changes nothing. */
  lemma BracesAreBalanced(value: string)
    ensures var r := InjectMissingBraces(value);
      && Count(r, '{') == Count(r, '}')
      && InjectMissingBraces(r) == r
      && exists before: nat, behind: nat ::
        r == Repeat(before, '{') + value + Repeat(behind, '}') && (before == 0 || behind == 0)
  {
    var r := InjectMissingBraces(value);
    var missing := Count(value, '{') as int - Count(value, '}') as int;
    var before: nat := if missing < 0 then -missing else 0;
    var behind: nat := if missing > 0 then missing else 0;
    assert r == Repeat(before, '{') + value + Repeat(behind, '}');
    forall c | c == '{' || c == '}'
      ensures Count(r, c) == Count(Repeat(before, '{'), c) + Count(value, c) + Count(Repeat(behind, '}'), c)
    {
      CountAppend(Repeat(before, '{') + value, Repeat(behind, '}'), c);
      CountAppend(Repeat(before, '{'), value, c);
    }
    forall c
      ensures Count(Repeat(before, '{'), c) == if c == '{' then before else 0
      ensures Count(Repeat(behind, '}'), c) == if c == '}' then behind else 0
    {
      CountRepeat(before, '{', c);
      CountRepeat(behind, '}', c);
    }
  }
}
