/**
  Positions in a tree, and lists of what is found at them: each thing once, in the order in
  which a traversal enters or leaves the nodes.
*/
module Positions {
  import opened Wrappers

  type Position = seq<nat>

  /** Whether a traversal meets `a` before `b`: `rootFirst` when it enters nodes, otherwise when it leaves them. */
  predicate Before(a: Position, b: Position, rootFirst: bool) {
    if a == [] then rootFirst && b != []
    else if b == [] then !rootFirst
    else a[0] < b[0] || (a[0] == b[0] && Before(a[1..], b[1..], rootFirst))
  }

  ghost predicate AreOrdered(ps: seq<Position>, rootFirst: bool) {
    forall i, j :: 0 <= i < j < |ps| ==> Before(ps[i], ps[j], rootFirst)
  }

  ghost predicate Finds<T>(ps: seq<Position>, xs: seq<T>, at: Position -> Option<T>) {
    |ps| == |xs| && forall i :: 0 <= i < |ps| ==> at(ps[i]) == Some(xs[i])
  }

  ghost predicate FindsAll<T>(ps: seq<Position>, at: Position -> Option<T>) {
    forall p :: at(p).Some? ==> p in ps
  }

  /** The list `xs` has what `at` finds, and `ps` tells where: all of it, each once and in order. */
  ghost predicate Lists<T>(ps: seq<Position>, xs: seq<T>, at: Position -> Option<T>, rootFirst: bool) {
    Finds(ps, xs, at) && FindsAll(ps, at) && AreOrdered(ps, rootFirst)
  }

  ghost predicate IsListOf<T>(xs: seq<T>, at: Position -> Option<T>, rootFirst: bool) {
    exists ps :: Lists(ps, xs, at, rootFirst)
  }

  lemma {:induction false} BeforeIsStrict(a: Position, rootFirst: bool)
    ensures !Before(a, a, rootFirst)
  {
    if a != [] {
      BeforeIsStrict(a[1..], rootFirst);
    }
  }

  function Below(n: nat, ps: seq<Position>): seq<Position> {
    seq(|ps|, i requires 0 <= i < |ps| => [n] + ps[i])
  }

  lemma NothingIsListed<T>(at: Position -> Option<T>, rootFirst: bool)
    requires forall p :: at(p) == None
    ensures IsListOf([], at, rootFirst)
  {
    assert Lists([], [], at, rootFirst);
  }

  lemma OrderedJoin(ps: seq<Position>, qs: seq<Position>, rootFirst: bool)
    requires AreOrdered(ps, rootFirst) && AreOrdered(qs, rootFirst)
    requires forall i, j :: 0 <= i < |ps| && 0 <= j < |qs| ==> Before(ps[i], qs[j], rootFirst)
    ensures AreOrdered(ps + qs, rootFirst)
  {
    var all := ps + qs;
    forall i, j | 0 <= i < j < |all|
      ensures Before(all[i], all[j], rootFirst)
    {
      if j < |ps| {
        assert Before(ps[i], ps[j], rootFirst);
      } else if |ps| <= i {
        assert Before(qs[i - |ps|], qs[j - |ps|], rootFirst);
      } else {
        assert Before(ps[i], qs[j - |ps|], rootFirst);
      }
    }
  }

  lemma OrderedBelow(n: nat, ps: seq<Position>, rootFirst: bool)
    requires AreOrdered(ps, rootFirst)
    ensures AreOrdered(Below(n, ps), rootFirst)
  {
    forall i, j | 0 <= i < j < |ps|
      ensures Before([n] + ps[i], [n] + ps[j], rootFirst)
    {
      assert ([n] + ps[i])[1..] == ps[i] && ([n] + ps[j])[1..] == ps[j];
      assert Before(ps[i], ps[j], rootFirst);
    }
  }

  lemma FindsJoin<T>(ps: seq<Position>, xs: seq<T>, qs: seq<Position>, ys: seq<T>, at: Position -> Option<T>)
    requires Finds(ps, xs, at) && Finds(qs, ys, at)
    ensures Finds(ps + qs, xs + ys, at)
  {
  }

  lemma FindsBelow<T>(n: nat, ps: seq<Position>, xs: seq<T>, below: Position -> Option<T>, at: Position -> Option<T>)
    requires Finds(ps, xs, below) && forall p :: p != [] && p[0] == n ==> at(p) == below(p[1..])
    ensures Finds(Below(n, ps), xs, at)
  {
    forall i | 0 <= i < |ps|
      ensures at(Below(n, ps)[i]) == Some(xs[i])
    {
      assert ([n] + ps[i])[1..] == ps[i];
    }
  }

  /** What is found below child `n`, then what is found below later children. */
  lemma ChildThenOthers<T>(n: nat, xs: seq<T>, below: Position -> Option<T>, ys: seq<T>, behind: Position -> Option<T>,
                           at: Position -> Option<T>, rootFirst: bool)
    requires IsListOf(xs, below, rootFirst) && IsListOf(ys, behind, rootFirst)
    requires forall p :: behind(p).Some? ==> p != [] && n < p[0]
    requires forall p :: at(p) == if p != [] && p[0] == n then below(p[1..]) else behind(p)
    ensures IsListOf(xs + ys, at, rootFirst)
  {
    var ps :| Lists(ps, xs, below, rootFirst);
    var qs :| Lists(qs, ys, behind, rootFirst);
    var here := Below(n, ps);
    FindsBelow(n, ps, xs, below, at);
    forall i | 0 <= i < |qs|
      ensures at(qs[i]) == Some(ys[i]) && qs[i] != [] && n < qs[i][0]
    {
      assert behind(qs[i]) == Some(ys[i]);
    }
    forall p | at(p).Some?
      ensures p in here || p in qs
    {
      FoundInOne(n, ps, qs, p, below, behind, at);
    }
    OrderedBelow(n, ps, rootFirst);
    ListsJoin(here, xs, qs, ys, at, rootFirst);
  }

  lemma FoundInOne<T>(n: nat, ps: seq<Position>, qs: seq<Position>, p: Position, below: Position -> Option<T>,
                      behind: Position -> Option<T>, at: Position -> Option<T>)
    requires FindsAll(ps, below) && FindsAll(qs, behind) && at(p).Some?
    requires at(p) == if p != [] && p[0] == n then below(p[1..]) else behind(p)
    ensures p in Below(n, ps) || p in qs
  {
    if p != [] && p[0] == n {
      var i :| 0 <= i < |ps| && ps[i] == p[1..];
      assert Below(n, ps)[i] == p;
    }
  }

  /** The root, if something is found there, comes first or last. */
  lemma RootAndBelow<T>(x: seq<T>, xs: seq<T>, below: Position -> Option<T>, at: Position -> Option<T>, rootFirst: bool)
    requires IsListOf(xs, below, rootFirst) && below([]) == None
    requires |x| <= 1 && at([]) == (if x == [] then None else Some(x[0]))
    requires forall p :: p != [] ==> at(p) == below(p)
    ensures IsListOf(if rootFirst then x + xs else xs + x, at, rootFirst)
  {
    var ps :| Lists(ps, xs, below, rootFirst);
    var root: seq<Position> := if x == [] then [] else [[]];
    assert root != [] ==> at(root[0]) == Some(x[0]);
    forall i | 0 <= i < |ps|
      ensures ps[i] != [] && at(ps[i]) == Some(xs[i])
    {
      assert below(ps[i]) == Some(xs[i]);
    }
    forall p | at(p).Some?
      ensures p in root || p in ps
    {
      if p == [] {
        assert root[0] == p;
      } else {
        assert below(p).Some?;
      }
    }
    if rootFirst {
      ListsJoin(root, x, ps, xs, at, rootFirst);
    } else {
      ListsJoin(ps, xs, root, x, at, rootFirst);
    }
  }

  lemma ListsJoin<T>(ps: seq<Position>, xs: seq<T>, qs: seq<Position>, ys: seq<T>, at: Position -> Option<T>,
                     rootFirst: bool)
    requires Finds(ps, xs, at) && Finds(qs, ys, at) && AreOrdered(ps, rootFirst) && AreOrdered(qs, rootFirst)
    requires forall p :: at(p).Some? ==> p in ps || p in qs
    requires forall i, j :: 0 <= i < |ps| && 0 <= j < |qs| ==> Before(ps[i], qs[j], rootFirst)
    ensures IsListOf(xs + ys, at, rootFirst)
  {
    FindsJoin(ps, xs, qs, ys, at);
    OrderedJoin(ps, qs, rootFirst);
    assert Lists(ps + qs, xs + ys, at, rootFirst);
  }

  /** The same things at the same positions. */
  lemma SameAt<T>(xs: seq<T>, at: Position -> Option<T>, at': Position -> Option<T>, rootFirst: bool)
    requires IsListOf(xs, at, rootFirst) && forall p :: at(p) == at'(p)
    ensures IsListOf(xs, at', rootFirst)
  {
    var ps :| Lists(ps, xs, at, rootFirst);
    assert Lists(ps, xs, at', rootFirst);
  }

  /** There is only one such list. */
  lemma {:induction false} ListIsUnique<T>(xs: seq<T>, ys: seq<T>, at: Position -> Option<T>, rootFirst: bool)
    requires IsListOf(xs, at, rootFirst) && IsListOf(ys, at, rootFirst)
    ensures xs == ys
  {
    var ps :| Lists(ps, xs, at, rootFirst);
    var qs :| Lists(qs, ys, at, rootFirst);
    SamePositions(ps, qs, rootFirst);
    assert forall i :: 0 <= i < |ps| ==> at(ps[i]) == Some(xs[i]) && at(qs[i]) == Some(ys[i]);
  }

  /** Two ordered lists of the same positions are the same. */
  lemma {:induction false} SamePositions(ps: seq<Position>, qs: seq<Position>, rootFirst: bool)
    requires AreOrdered(ps, rootFirst) && AreOrdered(qs, rootFirst) && forall p :: p in ps <==> p in qs
    ensures ps == qs
    decreases |ps|
  {
    assert ps != [] ==> ps[0] in ps;
    assert qs != [] ==> qs[0] in qs;
    if ps != [] {
      SameFirst(ps, qs, rootFirst);
      forall p
        ensures p in ps[1..] <==> p in qs[1..]
      {
        RestWithoutFirst(ps, p, rootFirst);
        RestWithoutFirst(qs, p, rootFirst);
      }
      SamePositions(ps[1..], qs[1..], rootFirst);
    }
  }

  lemma SameFirst(ps: seq<Position>, qs: seq<Position>, rootFirst: bool)
    requires AreOrdered(ps, rootFirst) && AreOrdered(qs, rootFirst) && ps != [] && qs != []
    requires ps[0] in qs && qs[0] in ps
    ensures ps[0] == qs[0]
  {
    var i :| 0 <= i < |qs| && qs[i] == ps[0];
    var j :| 0 <= j < |ps| && ps[j] == qs[0];
    if i > 0 && j > 0 {
      NotBothBefore(ps[0], qs[0], rootFirst);
    }
  }

  lemma {:induction false} NotBothBefore(a: Position, b: Position, rootFirst: bool)
    ensures !(Before(a, b, rootFirst) && Before(b, a, rootFirst))
  {
    if a != [] && b != [] {
      NotBothBefore(a[1..], b[1..], rootFirst);
    }
  }

  lemma RestWithoutFirst(ps: seq<Position>, p: Position, rootFirst: bool)
    requires ps != [] && AreOrdered(ps, rootFirst)
    ensures p in ps[1..] <==> p in ps && p != ps[0]
  {
    BeforeIsStrict(ps[0], rootFirst);
    if p in ps[1..] {
      var i :| 0 <= i < |ps[1..]| && ps[1..][i] == p;
      assert Before(ps[0], ps[i + 1], rootFirst);
    }
  }
}
