/**
  Exactly where the dead store rule judges executions rightly: the condition on evaluation
  order is not only enough, every breach of it makes the rule report a store that is read.
*/
module EvaluationFaults {
  import opened Wrappers
  import opened LiveVariablesAnalysis
  import opened DeadStores
  import opened EvaluationOrder

  // ----- setting references apart -----

  /** The variables of the references in `apart` are none of those of the others. */
  function RefApart(ref: Reference, apart: set<nat>): Reference {
    match ref.resolved
    case None => ref
    case Some(name) => ref.(resolved := Some((if ref.identifier in apart then ['a'] else ['b']) + name))
  }

  function RefsApart(refs: seq<Reference>, apart: set<nat>): seq<Reference> {
    seq(|refs|, i requires 0 <= i < |refs| => RefApart(refs[i], apart))
  }

  /** The same code, in which only references on the same side of `apart` can share a variable. */
  function Apart(e: Expr, apart: set<nat>): Expr {
    match e
    case Nothing => Nothing
    case Use(ref) => Use(RefApart(ref, apart))
    case Then(first, second) => Then(Apart(first, apart), Apart(second, apart))
    case Assign(left, right) => Assign(Apart(left, apart), Apart(right, apart))
    case Pattern(elements) => Pattern(Apart(elements, apart))
    case Default(target, value) => Default(Apart(target, apart), Apart(value, apart))
    case Branch(test, consequent, alternate) =>
      Branch(Apart(test, apart), Apart(consequent, apart), Apart(alternate, apart))
  }

  lemma RefsApartAppend(a: seq<Reference>, b: seq<Reference>, apart: set<nat>)
    ensures RefsApart(a + b, apart) == RefsApart(a, apart) + RefsApart(b, apart)
  {
  }

  lemma {:induction false} CollectedApart(e: Expr, apart: set<nat>)
    ensures CollectedRefs(Apart(e, apart)) == RefsApart(CollectedRefs(e), apart)
  {
    match e
    case Nothing =>
    case Use(ref) =>
    case Then(first, second) =>
      CollectedApart(first, apart);
      CollectedApart(second, apart);
      RefsApartAppend(CollectedRefs(first), CollectedRefs(second), apart);
    case Assign(left, right) =>
      CollectedApart(left, apart);
      CollectedApart(right, apart);
      RefsApartAppend(CollectedRefs(right), CollectedRefs(left), apart);
    case Pattern(elements) => CollectedApart(elements, apart);
    case Default(target, value) =>
      CollectedApart(target, apart);
      CollectedApart(value, apart);
      RefsApartAppend(CollectedRefs(target), CollectedRefs(value), apart);
    case Branch(test, consequent, alternate) =>
      CollectedApart(test, apart);
      CollectedApart(consequent, apart);
      CollectedApart(alternate, apart);
      RefsApartAppend(CollectedRefs(consequent), CollectedRefs(alternate), apart);
      RefsApartAppend(CollectedRefs(test), CollectedRefs(consequent) + CollectedRefs(alternate), apart);
  }

  lemma IdsApart(refs: seq<Reference>, apart: set<nat>)
    ensures Ids(RefsApart(refs, apart)) == Ids(refs)
  {
    var others := RefsApart(refs, apart);
    forall id | id in Ids(refs)
      ensures id in Ids(others)
    {
      var i :| 0 <= i < |refs| && refs[i].identifier == id;
      assert others[i] in others;
    }
    forall id | id in Ids(others)
      ensures id in Ids(refs)
    {
      var i :| 0 <= i < |others| && others[i].identifier == id;
      assert refs[i] in refs;
    }
  }

  /** What a branch or a default value evaluates when it is taken. */
  function WhenTaken(e: Expr): Expr {
    match e
    case Default(_, value) => value
    case Branch(_, consequent, _) => consequent
    case _ => Nothing
  }

  /** Takes what leads to a reference in `ids`, or what leads away from them. */
  ghost function Steer(ids: set<nat>, toward: bool): Expr -> bool {
    e => !(Ids(CollectedRefs(WhenTaken(e))) !! ids) == toward
  }

  lemma Steered(e: Expr, ids: set<nat>, toward: bool, id: nat)
    requires id in Ids(CollectedRefs(WhenTaken(e))) && id in ids
    ensures Steer(ids, toward)(e) == toward
  {
  }

  lemma SteeredAway(e: Expr, ids: set<nat>, toward: bool)
    requires Ids(CollectedRefs(WhenTaken(e))) !! ids
    ensures Steer(ids, toward)(e) != toward
  {
  }

  lemma SteerApart(e: Expr, apart: set<nat>, ids: set<nat>, toward: bool)
    ensures Steer(ids, toward)(Apart(e, apart)) == Steer(ids, toward)(e)
  {
    WhenTakenApart(e, apart);
    CollectedApart(WhenTaken(e), apart);
    IdsApart(CollectedRefs(WhenTaken(e)), apart);
  }

  lemma WhenTakenApart(e: Expr, apart: set<nat>)
    ensures WhenTaken(Apart(e, apart)) == Apart(WhenTaken(e), apart)
  {
    match e
    case Default(_, _) =>
    case Branch(_, _, _) =>
    case _ => assert WhenTaken(e) == Nothing;
  }

  lemma AssignmentRunApart(left: Expr, lhs: seq<Reference>, rhs: seq<Reference>, apart: set<nat>)
    ensures AssignmentRun(Apart(left, apart), RefsApart(lhs, apart), RefsApart(rhs, apart))
         == RefsApart(AssignmentRun(left, lhs, rhs), apart)
  {
    RefsApartAppend(rhs, lhs, apart);
    RefsApartAppend(lhs, rhs, apart);
  }

  lemma DefaultRunApart(target: Expr, lhs: seq<Reference>, needed: seq<Reference>, apart: set<nat>)
    ensures DefaultRun(Apart(target, apart), RefsApart(lhs, apart), RefsApart(needed, apart))
         == RefsApart(DefaultRun(target, lhs, needed), apart)
  {
    RefsApartAppend(needed, lhs, apart);
    RefsApartAppend(lhs, needed, apart);
  }

  lemma {:induction false} EvaluatedApart(e: Expr, apart: set<nat>, ids: set<nat>, toward: bool)
    ensures Evaluated(Apart(e, apart), Steer(ids, toward)) == RefsApart(Evaluated(e, Steer(ids, toward)), apart)
    decreases e, 1
  {
    var takes := Steer(ids, toward);
    match e
    case Nothing =>
    case Use(ref) =>
    case Then(first, second) =>
      EvaluatedApart(first, apart, ids, toward);
      EvaluatedApart(second, apart, ids, toward);
      RefsApartAppend(Evaluated(first, takes), Evaluated(second, takes), apart);
    case Assign(left, right) =>
      EvaluatedApart(left, apart, ids, toward);
      EvaluatedApart(right, apart, ids, toward);
      AssignmentRunApart(left, Evaluated(left, takes), Evaluated(right, takes), apart);
    case Pattern(elements) => EvaluatedApart(elements, apart, ids, toward);
    case Default(target, value) =>
      SteerApart(e, apart, ids, toward);
      EvaluatedApart(target, apart, ids, toward);
      EvaluatedApart(value, apart, ids, toward);
      DefaultRunApart(target, Evaluated(target, takes), if takes(e) then Evaluated(value, takes) else [], apart);
    case Branch(_, _, _) => BranchApart(e, apart, ids, toward);
  }

  lemma {:induction false} BranchApart(e: Expr, apart: set<nat>, ids: set<nat>, toward: bool)
    requires e.Branch?
    ensures Evaluated(Apart(e, apart), Steer(ids, toward)) == RefsApart(Evaluated(e, Steer(ids, toward)), apart)
    decreases e, 0
  {
    var takes := Steer(ids, toward);
    var c, a := Evaluated(e.consequent, takes), Evaluated(e.alternate, takes);
    SteerApart(e, apart, ids, toward);
    EvaluatedApart(e.test, apart, ids, toward);
    EvaluatedApart(e.consequent, apart, ids, toward);
    EvaluatedApart(e.alternate, apart, ids, toward);
    RefsApartAppend(Evaluated(e.test, takes), if takes(e) then c else a, apart);
  }

  lemma WellFormedApart(e: Expr, apart: set<nat>)
    requires IsWellFormed(e)
    ensures IsWellFormed(Apart(e, apart))
  {
    CollectedApart(e, apart);
  }

  lemma NoClashApart(a: seq<Reference>, b: seq<Reference>, apart: set<nat>)
    requires !Clash(a, b)
    ensures !Clash(RefsApart(a, apart), RefsApart(b, apart))
  {
    var c, d := RefsApart(a, apart), RefsApart(b, apart);
    forall p, q | p in c && q in d
      ensures !Conflict(p, q)
    {
      var i :| 0 <= i < |c| && c[i] == p;
      var j :| 0 <= j < |d| && d[j] == q;
      assert a[i] in a && b[j] in b && !Conflict(a[i], b[j]);
      if p.resolved == q.resolved && p.resolved.Some? {
        assert p.resolved.value[1..] == a[i].resolved.value && q.resolved.value[1..] == b[j].resolved.value;
      }
    }
  }

  lemma NoneOverwritesApart(refs: seq<Reference>, apart: set<nat>)
    requires NoneOverwrites(refs)
    ensures NoneOverwrites(RefsApart(refs, apart))
  {
    var others := RefsApart(refs, apart);
    forall r | r in others
      ensures !Overwrites(r)
    {
      var i :| 0 <= i < |others| && others[i] == r;
      assert refs[i] in refs;
    }
  }

  lemma {:induction false} OrderlyApart(e: Expr, apart: set<nat>)
    requires IsOrderly(e)
    ensures IsOrderly(Apart(e, apart))
  {
    match e
    case Nothing =>
    case Use(ref) =>
    case Then(first, second) =>
      OrderlyApart(first, apart);
      OrderlyApart(second, apart);
    case Assign(left, right) =>
      OrderlyApart(left, apart);
      OrderlyApart(right, apart);
      CollectedApart(left, apart);
      CollectedApart(right, apart);
      if IsCompound(left) {
        NoClashApart([ReadOf(left.ref)], CollectedRefs(right), apart);
        assert RefsApart([ReadOf(left.ref)], apart) == [ReadOf(RefApart(left.ref, apart))];
      }
      if !IsBinding(left) {
        NoClashApart(CollectedRefs(left), CollectedRefs(right), apart);
      }
    case Pattern(elements) => OrderlyApart(elements, apart);
    case Default(target, value) =>
      OrderlyApart(target, apart);
      OrderlyApart(value, apart);
      CollectedApart(target, apart);
      CollectedApart(value, apart);
      NoneOverwritesApart(CollectedRefs(value), apart);
      if IsBinding(target) {
        NoClashApart(CollectedRefs(value), CollectedRefs(target), apart);
      }
    case Branch(test, consequent, alternate) =>
      OrderlyApart(test, apart);
      OrderlyApart(consequent, apart);
      OrderlyApart(alternate, apart);
      CollectedApart(consequent, apart);
      CollectedApart(alternate, apart);
      NoneOverwritesApart(CollectedRefs(consequent), apart);
      NoneOverwritesApart(CollectedRefs(alternate), apart);
  }

  // ----- faults -----

  /** The references among `refs` with an identifier in `ids`. */
  function Only(refs: seq<Reference>, ids: set<nat>): seq<Reference> {
    if refs == [] then [] else (if refs[0].identifier in ids then [refs[0]] else []) + Only(refs[1..], ids)
  }

  lemma {:induction false} OnlyAppend(a: seq<Reference>, b: seq<Reference>, ids: set<nat>)
    ensures Only(a + b, ids) == Only(a, ids) + Only(b, ids)
  {
    if a == [] {
      assert a + b == b;
    } else {
      var first := if a[0].identifier in ids then [a[0]] else [];
      OnlyAppend(a[1..], b, ids);
      assert (a + b)[0] == a[0] && (a + b)[1..] == a[1..] + b;
      assert Only(a + b, ids) == first + Only(a[1..] + b, ids);
      assert first + (Only(a[1..], ids) + Only(b, ids)) == first + Only(a[1..], ids) + Only(b, ids);
    }
  }

  lemma {:induction false} OnlyNone(refs: seq<Reference>, ids: set<nat>)
    requires Ids(refs) !! ids
    ensures Only(refs, ids) == []
  {
    if refs != [] {
      assert refs[0] in refs && refs[0].identifier in Ids(refs);
      assert Ids(refs[1..]) <= Ids(refs);
      OnlyNone(refs[1..], ids);
    }
  }

  lemma {:induction false} OnlyOne(refs: seq<Reference>, ids: set<nat>, ref: Reference)
    requires AreDistinct(refs) && ref in refs && Ids(refs) * ids == {ref.identifier}
    ensures Only(refs, ids) == [ref]
  {
    var rest := refs[1..];
    assert AreDistinct(rest);
    assert Ids(refs) == {refs[0].identifier} + Ids(rest) by {
      assert forall r :: r in refs <==> r == refs[0] || r in rest;
    }
    assert refs[0].identifier !in Ids(rest) by {
      forall r | r in rest
        ensures r.identifier != refs[0].identifier
      {
        var i :| 0 <= i < |rest| && rest[i] == r;
        assert refs[0].identifier != refs[i + 1].identifier;
      }
    }
    if refs[0] == ref {
      OnlyNone(rest, ids);
    } else {
      assert ref in rest && ref.identifier in Ids(rest);
      assert refs[0].identifier in Ids(refs) && refs[0].identifier !in Ids(refs) * ids;
      OnlyOne(rest, ids, ref);
    }
  }

  /** A store that is collected but not evaluated, or two references collected the other way round than evaluated. */
  datatype Fault = Lost(w: Reference) | Swapped(p: Reference, q: Reference)
  {
    ghost function Involved(): set<nat> {
      match this
      case Lost(w) => {w.identifier}
      case Swapped(p, q) => {p.identifier, q.identifier}
    }

    ghost function Takes(): Expr -> bool {
      Steer(Involved(), Swapped?)
    }

    /** What `refs`, collected, and `run`, evaluated, show of the references involved. */
    ghost predicate Shows(refs: seq<Reference>, run: seq<Reference>) {
      match this
      case Lost(w) => Overwrites(w) && refs == [w] && run == []
      case Swapped(p, q) =>
        && p.identifier != q.identifier && p.resolved == q.resolved && refs == [q, p]
        && (|| (run == Accesses(p) + Accesses(q) && (p.isWrite || Overwrites(q)))
            || (run == [ReadOf(p)] + Accesses(q) + [WriteOf(p)] && p.isRead && p.isWrite && Overwrites(q)))
    }

    ghost predicate Appears(refs: seq<Reference>, run: seq<Reference>) {
      Involved() <= Ids(refs) && Shows(Only(refs, Involved()), Only(run, Involved()))
    }

    ghost predicate In(e: Expr) {
      Appears(CollectedRefs(e), Evaluated(e, Takes()))
    }
  }

  lemma IdsAppend(a: seq<Reference>, b: seq<Reference>)
    ensures Ids(a + b) == Ids(a) + Ids(b)
  {
    assert forall r :: r in a + b <==> r in a || r in b;
  }

  /** Only what is collected can be evaluated. */
  lemma {:induction false} EvaluatedIds(e: Expr, takes: Expr -> bool)
    ensures Ids(Evaluated(e, takes)) <= Ids(CollectedRefs(e))
  {
    match e
    case Nothing =>
    case Use(ref) => assert ref in [ref] && forall r :: r in Accesses(ref) ==> r.identifier == ref.identifier;
    case Then(first, second) =>
      EvaluatedIds(first, takes);
      EvaluatedIds(second, takes);
      IdsAppend(CollectedRefs(first), CollectedRefs(second));
      IdsAppend(Evaluated(first, takes), Evaluated(second, takes));
    case Assign(left, right) =>
      EvaluatedIds(left, takes);
      EvaluatedIds(right, takes);
      IdsAppend(CollectedRefs(right), CollectedRefs(left));
      AssignmentIds(left, Evaluated(left, takes), Evaluated(right, takes));
    case Pattern(elements) => EvaluatedIds(elements, takes);
    case Default(target, value) =>
      EvaluatedIds(target, takes);
      EvaluatedIds(value, takes);
      var needed := if takes(e) then Evaluated(value, takes) else [];
      IdsAppend(CollectedRefs(target), CollectedRefs(value));
      IdsAppend(needed, Evaluated(target, takes));
      IdsAppend(Evaluated(target, takes), needed);
    case Branch(test, consequent, alternate) =>
      EvaluatedIds(test, takes);
      EvaluatedIds(consequent, takes);
      EvaluatedIds(alternate, takes);
      IdsAppend(CollectedRefs(consequent), CollectedRefs(alternate));
      IdsAppend(CollectedRefs(test), CollectedRefs(consequent) + CollectedRefs(alternate));
      IdsAppend(Evaluated(test, takes), if takes(e) then Evaluated(consequent, takes) else Evaluated(alternate, takes));
  }

  lemma AssignmentIds(left: Expr, lhs: seq<Reference>, rhs: seq<Reference>)
    ensures Ids(AssignmentRun(left, lhs, rhs)) <= Ids(lhs) + Ids(rhs) + Ids(CollectedRefs(left))
  {
    if IsCompound(left) {
      var p := left.ref;
      assert p in [p];
      IdsAppend([ReadOf(p)], rhs);
      IdsAppend([ReadOf(p)] + rhs, [WriteOf(p)]);
    } else {
      IdsAppend(lhs, rhs);
      IdsAppend(rhs, lhs);
    }
  }

  /** A part that the references involved are not in shows nothing of them. */
  lemma PartIsSilent(e: Expr, ids: set<nat>, takes: Expr -> bool)
    requires Ids(CollectedRefs(e)) !! ids
    ensures Only(CollectedRefs(e), ids) == [] && Only(Evaluated(e, takes), ids) == []
  {
    EvaluatedIds(e, takes);
    OnlyNone(CollectedRefs(e), ids);
    OnlyNone(Evaluated(e, takes), ids);
  }

  /** What the accesses of an assignment show, from what those of its sides show. */
  lemma OnlyAssignment(left: Expr, lhs: seq<Reference>, rhs: seq<Reference>, ids: set<nat>)
    ensures Only(AssignmentRun(left, lhs, rhs), ids) ==
      if IsCompound(left) then
        if left.ref.identifier in ids then [ReadOf(left.ref)] + Only(rhs, ids) + [WriteOf(left.ref)] else Only(rhs, ids)
      else if IsBinding(left) then Only(rhs, ids) + Only(lhs, ids)
      else Only(lhs, ids) + Only(rhs, ids)
  {
    if IsCompound(left) {
      var p := left.ref;
      OnlyAppend([ReadOf(p)], rhs, ids);
      OnlyAppend([ReadOf(p)] + rhs, [WriteOf(p)], ids);
    } else {
      OnlyAppend(lhs, rhs, ids);
      OnlyAppend(rhs, lhs, ids);
    }
  }

  lemma OnlyDefault(target: Expr, lhs: seq<Reference>, needed: seq<Reference>, ids: set<nat>)
    ensures Only(DefaultRun(target, lhs, needed), ids) ==
      if IsBinding(target) then Only(needed, ids) + Only(lhs, ids) else Only(lhs, ids) + Only(needed, ids)
  {
    OnlyAppend(lhs, needed, ids);
    OnlyAppend(needed, lhs, ids);
  }

  /** `e` has the only reference in `ids`, which the other part is silent about. */
  ghost predicate Has(e: Expr, other: Expr, ids: set<nat>, ref: Reference, takes: Expr -> bool) {
    && ref in CollectedRefs(e) && Ids(CollectedRefs(e)) * ids == {ref.identifier}
    && Ids(CollectedRefs(other)) !! ids && Only(CollectedRefs(other), ids) == []
    && Only(Evaluated(other, takes), ids) == []
  }

  lemma HasIt(e: Expr, other: Expr, ids: set<nat>, ref: Reference, takes: Expr -> bool)
    requires ref in CollectedRefs(e) && Ids(CollectedRefs(e)) !! Ids(CollectedRefs(other))
    requires (Ids(CollectedRefs(e)) + Ids(CollectedRefs(other))) * ids == {ref.identifier}
    ensures Has(e, other, ids, ref, takes)
  {
    var mine, others := Ids(CollectedRefs(e)), Ids(CollectedRefs(other));
    assert ref.identifier in mine;
    assert forall id :: id in others && id in ids ==> id in (mine + others) * ids;
    assert forall id :: id in mine && id in ids ==> id in (mine + others) * ids;
    assert ref.identifier in (mine + others) * ids;
    PartIsSilent(other, ids, takes);
  }

  /** Exactly one of two parts has the only reference in `ids`. */
  lemma OneOfTwo(a: Expr, b: Expr, ids: set<nat>, ref: Reference, takes: Expr -> bool)
    requires IsWellFormed(Then(a, b)) && ref in CollectedRefs(a) + CollectedRefs(b)
    requires Ids(CollectedRefs(a) + CollectedRefs(b)) * ids == {ref.identifier}
    ensures IsWellFormed(a) && IsWellFormed(b)
    ensures if ref in CollectedRefs(a) then Has(a, b, ids, ref, takes) else Has(b, a, ids, ref, takes)
  {
    PartsAreWellFormed(a, b);
    IdsAppend(CollectedRefs(a), CollectedRefs(b));
    if ref in CollectedRefs(a) {
      HasIt(a, b, ids, ref, takes);
    } else {
      HasIt(b, a, ids, ref, takes);
    }
  }

  /** Every reference is evaluated when the branches are taken that lead to it. */
  lemma {:induction false} SteeredReaches(e: Expr, ids: set<nat>, ref: Reference)
    requires IsWellFormed(e) && ref in CollectedRefs(e) && Ids(CollectedRefs(e)) * ids == {ref.identifier}
    ensures Only(Evaluated(e, Steer(ids, true)), ids) == Accesses(ref)
    decreases e, 1
  {
    var takes := Steer(ids, true);
    match e
    case Use(_) =>
      assert ref.identifier in Ids(CollectedRefs(e)) * ids;
      assert Only([WriteOf(ref)], ids) == [WriteOf(ref)];
      assert ref.isRead && ref.isWrite ==> Accesses(ref)[1..] == [WriteOf(ref)];
    case Then(first, second) =>
      OnlyAppend(Evaluated(first, takes), Evaluated(second, takes), ids);
      OneOfTwo(first, second, ids, ref, takes);
      if ref in CollectedRefs(first) {
        SteeredReaches(first, ids, ref);
      } else {
        SteeredReaches(second, ids, ref);
      }
    case Assign(_, _) => AssignReaches(e, ids, ref);
    case Pattern(elements) => SteeredReaches(elements, ids, ref);
    case Default(_, _) => DefaultReaches(e, ids, ref);
    case Branch(_, _, _) => BranchReaches(e, ids, ref);
  }

  lemma {:induction false} AssignReaches(e: Expr, ids: set<nat>, ref: Reference)
    requires e.Assign? && IsWellFormed(e) && ref in CollectedRefs(e) && Ids(CollectedRefs(e)) * ids == {ref.identifier}
    ensures Only(Evaluated(e, Steer(ids, true)), ids) == Accesses(ref)
    decreases e, 0
  {
    var takes := Steer(ids, true);
    OnlyAssignment(e.left, Evaluated(e.left, takes), Evaluated(e.right, takes), ids);
    assert CollectedRefs(e) == CollectedRefs(e.right) + CollectedRefs(e.left) == CollectedRefs(Then(e.right, e.left));
    OneOfTwo(e.right, e.left, ids, ref, takes);
    if ref in CollectedRefs(e.right) {
      SteeredReaches(e.right, ids, ref);
      assert e.left.Use? ==> e.left.ref in CollectedRefs(e.left) && e.left.ref.identifier in Ids(CollectedRefs(e.left));
    } else {
      SteeredReaches(e.left, ids, ref);
      assert ref.identifier in Ids(CollectedRefs(e.left)) * ids;
    }
  }

  lemma {:induction false} DefaultReaches(e: Expr, ids: set<nat>, ref: Reference)
    requires e.Default? && IsWellFormed(e) && ref in CollectedRefs(e) && Ids(CollectedRefs(e)) * ids == {ref.identifier}
    ensures Only(Evaluated(e, Steer(ids, true)), ids) == Accesses(ref)
    decreases e, 0
  {
    var takes := Steer(ids, true);
    var needed := if takes(e) then Evaluated(e.value, takes) else [];
    assert Evaluated(e, takes) == DefaultRun(e.target, Evaluated(e.target, takes), needed);
    OnlyDefault(e.target, Evaluated(e.target, takes), needed, ids);
    assert CollectedRefs(e) == CollectedRefs(e.target) + CollectedRefs(e.value)
      == CollectedRefs(Then(e.target, e.value));
    OneOfTwo(e.target, e.value, ids, ref, takes);
    if ref in CollectedRefs(e.target) {
      SteeredReaches(e.target, ids, ref);
    } else {
      SteeredReaches(e.value, ids, ref);
      Steered(e, ids, true, ref.identifier);
    }
  }

  lemma {:induction false} BranchReaches(e: Expr, ids: set<nat>, ref: Reference)
    requires e.Branch? && IsWellFormed(e) && ref in CollectedRefs(e) && Ids(CollectedRefs(e)) * ids == {ref.identifier}
    ensures Only(Evaluated(e, Steer(ids, true)), ids) == Accesses(ref)
    decreases e, 0
  {
    var takes, both := Steer(ids, true), Then(e.consequent, e.alternate);
    assert CollectedRefs(e) == CollectedRefs(e.test) + CollectedRefs(both) == CollectedRefs(Then(e.test, both));
    OneOfTwo(e.test, both, ids, ref, takes);
    if ref in CollectedRefs(e.test) {
      SteeredReaches(e.test, ids, ref);
      TestShows(e, ids, takes);
    } else {
      OneOfTwo(e.consequent, e.alternate, ids, ref, takes);
      if ref in CollectedRefs(e.consequent) {
        SteeredReaches(e.consequent, ids, ref);
        Steered(e, ids, true, ref.identifier);
      } else {
        SteeredReaches(e.alternate, ids, ref);
        SteeredAway(e, ids, true);
      }
      BranchShows(e, ids, takes);
    }
  }

  lemma TestShows(e: Expr, ids: set<nat>, takes: Expr -> bool)
    requires e.Branch? && Only(Evaluated(Then(e.consequent, e.alternate), takes), ids) == []
    ensures Only(Evaluated(e, takes), ids) == Only(Evaluated(e.test, takes), ids)
  {
    var c, a := Evaluated(e.consequent, takes), Evaluated(e.alternate, takes);
    OnlyAppend(c, a, ids);
    OnlyAppend(Evaluated(e.test, takes), if takes(e) then c else a, ids);
  }

  lemma BranchShows(e: Expr, ids: set<nat>, takes: Expr -> bool)
    requires e.Branch? && Only(Evaluated(e.test, takes), ids) == []
    ensures Only(Evaluated(e, takes), ids)
      == Only(if takes(e) then Evaluated(e.consequent, takes) else Evaluated(e.alternate, takes), ids)
  {
    var rest := if takes(e) then Evaluated(e.consequent, takes) else Evaluated(e.alternate, takes);
    OnlyAppend(Evaluated(e.test, takes), rest, ids);
  }

  // ----- every breach is a fault -----

  /** References and accesses with other identifiers around a fault leave it one. */
  lemma Surrounded(f: Fault, refs: seq<Reference>, run: seq<Reference>, others: seq<Reference>, more: seq<Reference>)
    requires f.Appears(refs, run) && Ids(refs) !! Ids(others) && Ids(more) <= Ids(others)
    ensures f.Appears(refs + others, run + more) && f.Appears(refs + others, more + run)
    ensures f.Appears(others + refs, run + more) && f.Appears(others + refs, more + run)
  {
    var ids := f.Involved();
    OnlyNone(others, ids);
    OnlyNone(more, ids);
    OnlyAppend(refs, others, ids);
    OnlyAppend(others, refs, ids);
    OnlyAppend(run, more, ids);
    OnlyAppend(more, run, ids);
    IdsAppend(refs, others);
    IdsAppend(others, refs);
    assert Only(run, ids) + [] == Only(run, ids) == [] + Only(run, ids);
    assert Only(refs, ids) + [] == Only(refs, ids) == [] + Only(refs, ids);
  }

  lemma InThen(f: Fault, first: Expr, second: Expr)
    requires f.Appears(CollectedRefs(first) + CollectedRefs(second),
                       Evaluated(first, f.Takes()) + Evaluated(second, f.Takes()))
    ensures f.In(Then(first, second))
  {
    Sequential(first, second, f.Takes());
  }

  lemma ThenHasFault(f: Fault, first: Expr, second: Expr)
    requires IsWellFormed(Then(first, second)) && (f.In(first) || f.In(second))
    ensures f.In(Then(first, second))
  {
    PartsAreWellFormed(first, second);
    EvaluatedIds(first, f.Takes());
    EvaluatedIds(second, f.Takes());
    if f.In(first) {
      Surrounded(f, CollectedRefs(first), Evaluated(first, f.Takes()), CollectedRefs(second),
                 Evaluated(second, f.Takes()));
    } else {
      Surrounded(f, CollectedRefs(second), Evaluated(second, f.Takes()), CollectedRefs(first),
                 Evaluated(first, f.Takes()));
    }
    InThen(f, first, second);
  }

  /** A fault of what both sides of an assignment show together. */
  lemma InAssign(f: Fault, left: Expr, right: Expr)
    requires f.Appears(CollectedRefs(right) + CollectedRefs(left),
                       AssignmentRun(left, Evaluated(left, f.Takes()), Evaluated(right, f.Takes())))
    ensures f.In(Assign(left, right))
  {
  }

  lemma RightHasFault(f: Fault, left: Expr, right: Expr)
    requires IsWellFormed(Assign(left, right)) && f.In(right)
    ensures f.In(Assign(left, right))
  {
    SidesAreWellFormed(left, right);
    EvaluatedIds(left, f.Takes());
    if IsCompound(left) {
      SurroundedByTarget(f, CollectedRefs(right), Evaluated(right, f.Takes()), left.ref);
    } else {
      Surrounded(f, CollectedRefs(right), Evaluated(right, f.Takes()), CollectedRefs(left), Evaluated(left, f.Takes()));
    }
    InAssign(f, left, right);
  }

  lemma SurroundedByTarget(f: Fault, refs: seq<Reference>, run: seq<Reference>, p: Reference)
    requires f.Appears(refs, run) && Ids(refs) !! Ids([p])
    ensures f.Appears(refs + [p], [ReadOf(p)] + run + [WriteOf(p)])
  {
    var ids := f.Involved();
    assert p in [p] && p.identifier in Ids([p]);
    OnlyAppend(refs, [p], ids);
    OnlyAppend([ReadOf(p)], run, ids);
    OnlyAppend([ReadOf(p)] + run, [WriteOf(p)], ids);
    IdsAppend(refs, [p]);
    assert Only([p], ids) == [] && Only([ReadOf(p)], ids) == [] && Only([WriteOf(p)], ids) == [];
    assert [] + Only(run, ids) + [] == Only(run, ids);
    assert Only(refs, ids) + [] == Only(refs, ids);
  }

  lemma LeftHasFault(f: Fault, left: Expr, right: Expr)
    requires IsWellFormed(Assign(left, right)) && f.In(left) && !left.Use?
    ensures f.In(Assign(left, right))
  {
    SidesAreWellFormed(left, right);
    EvaluatedIds(right, f.Takes());
    Surrounded(f, CollectedRefs(left), Evaluated(left, f.Takes()), CollectedRefs(right), Evaluated(right, f.Takes()));
    InAssign(f, left, right);
  }

  lemma OneInvolved(e: Expr, ref: Reference, ids: set<nat>)
    requires IsWellFormed(e) && ref in CollectedRefs(e) && Ids(CollectedRefs(e)) * ids == {ref.identifier}
    ensures Only(CollectedRefs(e), ids) == [ref] && Only(Evaluated(e, Steer(ids, true)), ids) == Accesses(ref)
  {
    OnlyOne(CollectedRefs(e), ids, ref);
    SteeredReaches(e, ids, ref);
  }

  lemma JustOne(mine: set<nat>, others: set<nat>, x: nat, y: nat)
    requires mine !! others && x in mine && y in others
    ensures mine * {x, y} == {x} && {x, y} == {y, x}
  {
  }

  /** What is collected as `b + a` and evaluated as `c + d` shows the references swapped. */
  lemma SwapAppears(f: Fault, a: seq<Reference>, b: seq<Reference>, c: seq<Reference>, d: seq<Reference>)
    requires f.Swapped? && f.p.identifier in Ids(a) && f.q.identifier in Ids(b) && Ids(a) !! Ids(b)
      && Conflict(f.p, f.q)
    requires Only(a, f.Involved()) == [f.p] && Only(b, f.Involved()) == [f.q]
    requires Only(c, f.Involved()) == Accesses(f.p) && Only(d, f.Involved()) == Accesses(f.q)
    ensures f.Appears(b + a, c + d)
  {
    IdsAppend(b, a);
    OnlyAppend(b, a, f.Involved());
    OnlyAppend(c, d, f.Involved());
    assert [f.q] + [f.p] == [f.q, f.p];
  }

  /** Two references in parts of which `early` is evaluated first and collected behind `late`. */
  lemma SwappedParts(early: Expr, late: Expr, p: Reference, q: Reference)
    requires IsWellFormed(early) && IsWellFormed(late) && Ids(CollectedRefs(early)) !! Ids(CollectedRefs(late))
    requires p in CollectedRefs(early) && q in CollectedRefs(late) && Conflict(p, q)
    ensures var f := Swapped(p, q);
      f.Appears(CollectedRefs(late) + CollectedRefs(early), Evaluated(early, f.Takes()) + Evaluated(late, f.Takes()))
  {
    var f := Swapped(p, q);
    TwoInvolved(early, late, f);
    SwapAppears(f, CollectedRefs(early), CollectedRefs(late), Evaluated(early, f.Takes()), Evaluated(late, f.Takes()));
  }

  lemma TwoInvolved(early: Expr, late: Expr, f: Fault)
    requires IsWellFormed(early) && IsWellFormed(late) && Ids(CollectedRefs(early)) !! Ids(CollectedRefs(late))
    requires f.Swapped? && f.p in CollectedRefs(early) && f.q in CollectedRefs(late)
    ensures f.p.identifier in Ids(CollectedRefs(early)) && f.q.identifier in Ids(CollectedRefs(late))
    ensures Only(CollectedRefs(early), f.Involved()) == [f.p] && Only(CollectedRefs(late), f.Involved()) == [f.q]
    ensures Only(Evaluated(early, f.Takes()), f.Involved()) == Accesses(f.p)
    ensures Only(Evaluated(late, f.Takes()), f.Involved()) == Accesses(f.q)
  {
    var a, b := Ids(CollectedRefs(early)), Ids(CollectedRefs(late));
    assert f.p.identifier in a && f.q.identifier in b;
    JustOne(a, b, f.p.identifier, f.q.identifier);
    JustOne(b, a, f.q.identifier, f.p.identifier);
    OneInvolved(early, f.p, f.Involved());
    OneInvolved(late, f.q, f.Involved());
  }

  lemma ClashInAssign(left: Expr, right: Expr) returns (f: Fault)
    requires IsWellFormed(Assign(left, right)) && !IsBinding(left) && Clash(CollectedRefs(left), CollectedRefs(right))
    ensures f.In(Assign(left, right))
  {
    SidesAreWellFormed(left, right);
    var p, q :| p in CollectedRefs(left) && q in CollectedRefs(right) && Conflict(p, q);
    f := Swapped(p, q);
    SwappedParts(left, right, p, q);
    InAssign(f, left, right);
  }

  lemma ClashInCompound(left: Expr, right: Expr) returns (f: Fault)
    requires IsWellFormed(Assign(left, right)) && IsCompound(left) && Clash([ReadOf(left.ref)], CollectedRefs(right))
    ensures f.In(Assign(left, right))
  {
    SidesAreWellFormed(left, right);
    var r, q :| r in [ReadOf(left.ref)] && q in CollectedRefs(right) && Conflict(r, q);
    var p := left.ref;
    f := Swapped(p, q);
    assert p in CollectedRefs(left);
    TwoInvolved(left, right, f);
    SplitSwapAppears(f, CollectedRefs(right), Evaluated(right, f.Takes()));
    InAssign(f, left, right);
  }

  /** The same for the target of a compound assignment around `d`. */
  lemma SplitSwapAppears(f: Fault, b: seq<Reference>, d: seq<Reference>)
    requires f.Swapped? && f.p.isRead && f.p.isWrite && Overwrites(f.q) && f.p.resolved == f.q.resolved
    requires f.q.identifier in Ids(b) && f.p.identifier !in Ids(b)
    requires Only(b, f.Involved()) == [f.q] && Only(d, f.Involved()) == Accesses(f.q)
    ensures f.Appears(b + [f.p], [ReadOf(f.p)] + d + [WriteOf(f.p)])
  {
    var p, ids := f.p, f.Involved();
    assert p in [p] && p.identifier in Ids([p]);
    IdsAppend(b, [p]);
    OnlyAppend(b, [p], ids);
    OnlyAppend([ReadOf(p)], d, ids);
    OnlyAppend([ReadOf(p)] + d, [WriteOf(p)], ids);
    assert Only([p], ids) == [p] && Only([ReadOf(p)], ids) == [ReadOf(p)] && Only([WriteOf(p)], ids) == [WriteOf(p)];
    assert [f.q] + [p] == [f.q, p];
  }

  /** A reference that overwrites, in a part that is not evaluated. */
  lemma LostPart(refs: seq<Reference>, w: Reference)
    requires AreDistinct(refs) && w in refs && Overwrites(w)
    ensures Lost(w).Appears(refs, [])
  {
    var ids := {w.identifier};
    assert w.identifier in Ids(refs) && Ids(refs) * ids == {w.identifier};
    OnlyOne(refs, ids, w);
  }

  lemma SurroundedInDefault(f: Fault, target: Expr, refs: seq<Reference>, run: seq<Reference>, others: seq<Reference>,
                            more: seq<Reference>)
    requires f.Appears(refs, run) && Ids(refs) !! Ids(others) && Ids(more) <= Ids(others)
    ensures f.Appears(refs + others, DefaultRun(target, run, more))
    ensures f.Appears(others + refs, DefaultRun(target, more, run))
  {
    Surrounded(f, refs, run, others, more);
  }

  /** A fault of what a target and its default value show together. */
  lemma InDefault(f: Fault, target: Expr, value: Expr, needed: seq<Reference>)
    requires f.Appears(CollectedRefs(target) + CollectedRefs(value),
                       DefaultRun(target, Evaluated(target, f.Takes()), needed))
    requires needed == if f.Takes()(Default(target, value)) then Evaluated(value, f.Takes()) else []
    ensures f.In(Default(target, value))
  {
    assert CollectedRefs(Default(target, value)) == CollectedRefs(target) + CollectedRefs(value);
    assert Evaluated(Default(target, value), f.Takes()) == DefaultRun(target, Evaluated(target, f.Takes()), needed);
  }

  lemma LostInDefault(target: Expr, value: Expr, w: Reference)
    requires IsWellFormed(Default(target, value)) && w in CollectedRefs(value) && Overwrites(w)
    ensures Lost(w).In(Default(target, value))
  {
    var f := Lost(w);
    DefaultIsWellFormed(target, value);
    LostPart(CollectedRefs(value), w);
    EvaluatedIds(target, f.Takes());
    SurroundedInDefault(f, target, CollectedRefs(value), [], CollectedRefs(target), Evaluated(target, f.Takes()));
    Steered(Default(target, value), f.Involved(), false, w.identifier);
    InDefault(f, target, value, []);
  }

  lemma TargetHasFault(f: Fault, target: Expr, value: Expr)
    requires IsWellFormed(Default(target, value)) && f.In(target)
    ensures f.In(Default(target, value))
  {
    DefaultIsWellFormed(target, value);
    EvaluatedIds(value, f.Takes());
    var needed := if f.Takes()(Default(target, value)) then Evaluated(value, f.Takes()) else [];
    SurroundedInDefault(f, target, CollectedRefs(target), Evaluated(target, f.Takes()), CollectedRefs(value), needed);
    InDefault(f, target, value, needed);
  }

  lemma ValueHasFault(f: Fault, target: Expr, value: Expr)
    requires IsWellFormed(Default(target, value)) && f.In(value) && f.Swapped?
    ensures f.In(Default(target, value))
  {
    DefaultIsWellFormed(target, value);
    EvaluatedIds(target, f.Takes());
    SurroundedInDefault(f, target, CollectedRefs(value), Evaluated(value, f.Takes()), CollectedRefs(target),
                        Evaluated(target, f.Takes()));
    Steered(Default(target, value), f.Involved(), true, f.p.identifier);
    InDefault(f, target, value, Evaluated(value, f.Takes()));
  }

  lemma ClashInDefault(target: Expr, value: Expr) returns (f: Fault)
    requires IsWellFormed(Default(target, value)) && IsBinding(target)
      && Clash(CollectedRefs(value), CollectedRefs(target))
    ensures f.In(Default(target, value))
  {
    DefaultIsWellFormed(target, value);
    var p, q :| p in CollectedRefs(value) && q in CollectedRefs(target) && Conflict(p, q);
    f := Swapped(p, q);
    SwappedParts(value, target, p, q);
    assert p.identifier in Ids(CollectedRefs(value));
    Steered(Default(target, value), f.Involved(), true, p.identifier);
    InDefault(f, target, value, Evaluated(value, f.Takes()));
  }

  /** A fault of the branches as they are collected and evaluated, behind a test. */
  lemma BehindTest(f: Fault, e: Expr, run: seq<Reference>)
    requires e.Branch? && IsWellFormed(e) && f.Appears(CollectedRefs(e.consequent) + CollectedRefs(e.alternate), run)
    requires run == if f.Takes()(e) then Evaluated(e.consequent, f.Takes()) else Evaluated(e.alternate, f.Takes())
    ensures f.In(e)
  {
    BranchIsWellFormed(e.test, e.consequent, e.alternate);
    EvaluatedIds(e.test, f.Takes());
    Surrounded(f, CollectedRefs(e.consequent) + CollectedRefs(e.alternate), run, CollectedRefs(e.test),
               Evaluated(e.test, f.Takes()));
  }

  lemma LostInConsequent(e: Expr, w: Reference)
    requires e.Branch? && IsWellFormed(e) && Overwrites(w) && w in CollectedRefs(e.consequent)
    ensures Lost(w).In(e)
  {
    var f := Lost(w);
    BranchIsWellFormed(e.test, e.consequent, e.alternate);
    EvaluatedIds(e.alternate, f.Takes());
    LostPart(CollectedRefs(e.consequent), w);
    Surrounded(f, CollectedRefs(e.consequent), [], CollectedRefs(e.alternate), Evaluated(e.alternate, f.Takes()));
    Steered(e, f.Involved(), false, w.identifier);
    assert [] + Evaluated(e.alternate, f.Takes()) == Evaluated(e.alternate, f.Takes());
    BehindTest(f, e, Evaluated(e.alternate, f.Takes()));
  }

  lemma LostInAlternate(e: Expr, w: Reference)
    requires e.Branch? && IsWellFormed(e) && Overwrites(w) && w in CollectedRefs(e.alternate)
    ensures Lost(w).In(e)
  {
    var f := Lost(w);
    BranchIsWellFormed(e.test, e.consequent, e.alternate);
    EvaluatedIds(e.consequent, f.Takes());
    LostPart(CollectedRefs(e.alternate), w);
    Surrounded(f, CollectedRefs(e.alternate), [], CollectedRefs(e.consequent), Evaluated(e.consequent, f.Takes()));
    assert w.identifier in Ids(CollectedRefs(e.alternate));
    SteeredAway(e, f.Involved(), false);
    assert [] + Evaluated(e.consequent, f.Takes()) == Evaluated(e.consequent, f.Takes());
    BehindTest(f, e, Evaluated(e.consequent, f.Takes()));
  }

  lemma TestHasFault(f: Fault, e: Expr)
    requires e.Branch? && IsWellFormed(e) && f.In(e.test)
    ensures f.In(e)
  {
    BranchIsWellFormed(e.test, e.consequent, e.alternate);
    EvaluatedIds(e.consequent, f.Takes());
    EvaluatedIds(e.alternate, f.Takes());
    IdsAppend(CollectedRefs(e.consequent), CollectedRefs(e.alternate));
    var run := if f.Takes()(e) then Evaluated(e.consequent, f.Takes()) else Evaluated(e.alternate, f.Takes());
    Surrounded(f, CollectedRefs(e.test), Evaluated(e.test, f.Takes()),
               CollectedRefs(e.consequent) + CollectedRefs(e.alternate), run);
    assert Evaluated(e, f.Takes()) == Evaluated(e.test, f.Takes()) + run;
  }

  lemma ConsequentHasFault(f: Fault, e: Expr)
    requires e.Branch? && IsWellFormed(e) && f.Swapped? && f.In(e.consequent)
    ensures f.In(e)
  {
    BranchIsWellFormed(e.test, e.consequent, e.alternate);
    var run := Evaluated(e.consequent, f.Takes());
    Surrounded(f, CollectedRefs(e.consequent), run, CollectedRefs(e.alternate), []);
    assert run + [] == run;
    Steered(e, f.Involved(), true, f.p.identifier);
    BehindTest(f, e, run);
  }

  lemma AlternateHasFault(f: Fault, e: Expr)
    requires e.Branch? && IsWellFormed(e) && f.Swapped? && f.In(e.alternate)
    ensures f.In(e)
  {
    BranchIsWellFormed(e.test, e.consequent, e.alternate);
    var run := Evaluated(e.alternate, f.Takes());
    Surrounded(f, CollectedRefs(e.alternate), run, CollectedRefs(e.consequent), []);
    assert run + [] == run;
    SteeredAway(e, f.Involved(), true);
    BehindTest(f, e, run);
  }

  lemma LostOverwrites(f: Fault, e: Expr)
    requires f.In(e) && f.Lost?
    ensures f.w in CollectedRefs(e) && Overwrites(f.w)
  {
    OnlyIsPart(CollectedRefs(e), f.Involved());
    assert f.w in Only(CollectedRefs(e), f.Involved());
  }

  lemma {:induction false} OnlyIsPart(refs: seq<Reference>, ids: set<nat>)
    ensures forall r :: r in Only(refs, ids) ==> r in refs
  {
    if refs != [] {
      OnlyIsPart(refs[1..], ids);
    }
  }

  /** Code that is not orderly has a fault. */
  lemma {:induction false} FindFault(e: Expr) returns (f: Fault)
    requires IsWellFormed(e) && !IsOrderly(e)
    ensures f.In(e)
    decreases e, 1
  {
    match e
    case Then(first, second) =>
      PartsAreWellFormed(first, second);
      if !IsOrderly(first) {
        f := FindFault(first);
      } else {
        f := FindFault(second);
      }
      ThenHasFault(f, first, second);
    case Assign(left, right) =>
      SidesAreWellFormed(left, right);
      if !IsOrderly(right) {
        f := FindFault(right);
        RightHasFault(f, left, right);
      } else if !IsOrderly(left) {
        f := FindFault(left);
        LeftHasFault(f, left, right);
      } else if IsCompound(left) {
        f := ClashInCompound(left, right);
      } else {
        f := ClashInAssign(left, right);
      }
    case Pattern(elements) => f := FindFault(elements);
    case Default(_, _) => f := FindFaultInDefault(e);
    case Branch(_, _, _) => f := FindFaultInBranch(e);
  }

  lemma {:induction false} FindFaultInDefault(e: Expr) returns (f: Fault)
    requires e.Default? && IsWellFormed(e) && !IsOrderly(e)
    ensures f.In(e)
    decreases e, 0
  {
    var target, value := e.target, e.value;
    DefaultIsWellFormed(target, value);
    if w :| w in CollectedRefs(value) && Overwrites(w) {
      f := Lost(w);
      LostInDefault(target, value, w);
    } else if !IsOrderly(target) {
      f := FindFault(target);
      TargetHasFault(f, target, value);
    } else if !IsOrderly(value) {
      f := FindFault(value);
      if f.Lost? {
        LostOverwrites(f, value);
      }
      ValueHasFault(f, target, value);
    } else {
      f := ClashInDefault(target, value);
    }
  }

  lemma {:induction false} FindFaultInBranch(e: Expr) returns (f: Fault)
    requires e.Branch? && IsWellFormed(e) && !IsOrderly(e)
    ensures f.In(e)
    decreases e, 0
  {
    BranchIsWellFormed(e.test, e.consequent, e.alternate);
    if w :| w in CollectedRefs(e.consequent) && Overwrites(w) {
      f := Lost(w);
      LostInConsequent(e, w);
    } else if w :| w in CollectedRefs(e.alternate) && Overwrites(w) {
      f := Lost(w);
      LostInAlternate(e, w);
    } else if !IsOrderly(e.test) {
      f := FindFault(e.test);
      TestHasFault(f, e);
    } else if !IsOrderly(e.consequent) {
      f := FindFault(e.consequent);
      if f.Lost? {
        LostOverwrites(f, e.consequent);
      }
      ConsequentHasFault(f, e);
    } else {
      f := FindFault(e.alternate);
      if f.Lost? {
        LostOverwrites(f, e.alternate);
      }
      AlternateHasFault(f, e);
    }
  }

  // ----- every fault misleads the rule -----

  /** Only references with identifiers in `ids` access `v`. */
  ghost predicate AccessedOnlyIn(refs: seq<Reference>, v: Variable, ids: set<nat>) {
    forall r :: r in refs && r.resolved == Some(v) ==> r.identifier in ids
  }

  lemma {:induction false} OnlyMatters(refs: seq<Reference>, v: Variable, ids: set<nat>, after: bool)
    requires AccessedOnlyIn(refs, v, ids)
    ensures ReadFirst(refs, v, after) == ReadFirst(Only(refs, ids), v, after)
  {
    if refs != [] {
      assert refs[0] in refs;
      assert forall r :: r in refs[1..] ==> r in refs;
      OnlyMatters(refs[1..], v, ids, after);
      if refs[0].identifier in ids {
        assert Only(refs, ids)[0] == refs[0] && Only(refs, ids)[1..] == Only(refs[1..], ids);
      } else {
        assert Only(refs, ids) == Only(refs[1..], ids);
      }
    }
  }

  lemma {:induction false} OnlyApart(refs: seq<Reference>, ids: set<nat>, apart: set<nat>)
    ensures Only(RefsApart(refs, apart), ids) == RefsApart(Only(refs, ids), apart)
  {
    if refs != [] {
      OnlyApart(refs[1..], ids, apart);
      assert RefsApart(refs, apart)[1..] == RefsApart(refs[1..], apart);
      var first := if refs[0].identifier in ids then [refs[0]] else [];
      RefsApartAppend(first, Only(refs[1..], ids), apart);
    }
  }

  /** Where the `j`-th of them is, and what follows it. */
  lemma {:induction false} PlaceAmong(refs: seq<Reference>, ids: set<nat>, j: nat) returns (k: nat)
    requires j < |Only(refs, ids)|
    ensures k < |refs| && refs[k] == Only(refs, ids)[j] && Only(refs[k + 1..], ids) == Only(refs, ids)[j + 1..]
  {
    var rest := refs[1..];
    if refs[0].identifier !in ids {
      assert Only(refs, ids) == Only(rest, ids);
      k := PlaceAmong(rest, ids, j);
      assert refs[k + 2..] == rest[k + 1..];
      k := k + 1;
    } else {
      assert Only(refs, ids) == [refs[0]] + Only(rest, ids);
      if j == 0 {
        k := 0;
      } else {
        k := PlaceAmong(rest, ids, j - 1);
        assert refs[k + 2..] == rest[k + 1..];
        k := k + 1;
      }
    }
  }

  /** The code stands in a program in which everything else is orderly. */
  ghost predicate Stands(p: Program, id: SegmentId, before: Expr, e: Expr, behind: Expr) {
    && p.Valid() && id < |p.code| && p.code[id] == Then(before, Then(e, behind))
    && IsOrderly(before) && IsOrderly(behind)
    && forall other :: 0 <= other < |p.code| && other != id ==> IsOrderly(p.code[other])
  }

  /** However it stands in a program, no store that the rule takes for dead is read by an execution. */
  ghost predicate IsJudgedRightlyEverywhere(e: Expr) {
    forall p, id, before, behind :: Stands(p, id, before, e, behind) ==> JudgesRightly(p)
  }

  /** A store judged by `refs` with the answer `after` behind them, which `run` contradicts. */
  ghost predicate Misjudges(c: Expr, k: nat, takes: Expr -> bool, i: nat, v: Variable, after: bool) {
    var refs, run := CollectedRefs(c), Evaluated(c, takes);
    && k < |refs| && i < |run| && refs[k].isWrite && IsStoreOf(run[i], refs[k], v)
    && !ReadFirst(refs[k + 1..], v, after) && ReadFirst(run[i + 1..], v, after)
  }

  /** The code at the end of a code path, and in front of a segment that reads `v`. */
  function AtEnd(c: Expr): Program {
    Program([[]], [c])
  }

  function BeforeRead(c: Expr, v: Variable): Program {
    Program([[1], []], [c, Use(Reference(0, Some(v), true, false))])
  }

  lemma MisjudgedAtEnd(c: Expr, k: nat, takes: Expr -> bool, i: nat, v: Variable)
    requires IsWellFormed(c) && Misjudges(c, k, takes, i, v, false)
    ensures AtEnd(c).Valid() && !JudgesRightly(AtEnd(c))
  {
    var p := AtEnd(c);
    p.SegmentsAreConsistent();
    assert p.Segments()[0].references == CollectedRefs(c);
    assert IsJudgedDead(p, 0, k);
    var x := Execution(takes, i, [], []);
    assert Behind(p, 0, x) == Evaluated(c, takes)[i + 1..];
    assert ReadsStore(p, 0, k, x);
  }

  lemma MisjudgedBeforeRead(c: Expr, k: nat, takes: Expr -> bool, i: nat, v: Variable)
    requires IsWellFormed(c) && Misjudges(c, k, takes, i, v, true)
    ensures BeforeRead(c, v).Valid() && !JudgesRightly(BeforeRead(c, v))
  {
    var p, x := BeforeRead(c, v), Execution(takes, i, [1], [takes]);
    BeforeReadIsValid(c, v);
    OverwrittenIsJudgedDead(p, k, v);
    ReadNext(c, takes, v);
    ReadFirstAppend(Evaluated(c, takes)[i + 1..], Executed(p, [1], [takes]), v, false);
    assert ReadsStore(p, 0, k, x);
  }

  lemma BeforeReadIsValid(c: Expr, v: Variable)
    requires IsWellFormed(c)
    ensures var p := BeforeRead(c, v);
      p.Valid() && Consistent(p.next, p.Segments()) && Continues(p.next, p.Segments(), 0, [1])
  {
    var p := BeforeRead(c, v);
    assert IsWellFormed(p.code[1]);
    p.SegmentsAreConsistent();
    assert 1 in p.next[0];
  }

  lemma OverwrittenIsJudgedDead(p: Program, k: nat, v: Variable)
    requires p.Valid() && p.code != [] && k < |CollectedRefs(p.code[0])|
    requires CollectedRefs(p.code[0])[k].isWrite && CollectedRefs(p.code[0])[k].resolved == Some(v)
    requires !ReadFirst(CollectedRefs(p.code[0])[k + 1..], v, true)
    ensures IsJudgedDead(p, 0, k)
  {
    p.SegmentsAreConsistent();
    assert p.Segments()[0].references == CollectedRefs(p.code[0]);
    ReadFirstMonotone(CollectedRefs(p.code[0])[k + 1..], v, false, true);
  }

  lemma ReadNext(c: Expr, takes: Expr -> bool, v: Variable)
    ensures ReadFirst(Executed(BeforeRead(c, v), [1], [takes]), v, false)
  {
    var p := BeforeRead(c, v);
    assert Executed(p, [1], [takes]) == [p.code[1].ref] + Executed(p, [], []);
  }

  lemma MisjudgedSomewhere(e: Expr, before: Expr, k: nat, takes: Expr -> bool, i: nat, v: Variable, after: bool)
    requires IsOrderly(before) && IsWellFormed(Then(before, Then(e, Nothing)))
    requires Misjudges(Then(before, Then(e, Nothing)), k, takes, i, v, after)
    ensures !IsJudgedRightlyEverywhere(e)
  {
    var c := Then(before, Then(e, Nothing));
    if after {
      MisjudgedBeforeRead(c, k, takes, i, v);
      StandsIn(BeforeRead(c, v), before, e);
    } else {
      MisjudgedAtEnd(c, k, takes, i, v);
      StandsIn(AtEnd(c), before, e);
    }
  }

  lemma StandsIn(p: Program, before: Expr, e: Expr)
    requires p.Valid() && p.code != [] && p.code[0] == Then(before, Then(e, Nothing)) && IsOrderly(before)
    requires forall other :: 0 < other < |p.code| ==> p.code[other].Use?
    ensures Stands(p, 0, before, e, Nothing)
  {
  }

  lemma Sequential(first: Expr, second: Expr, takes: Expr -> bool)
    ensures CollectedRefs(Then(first, second)) == CollectedRefs(first) + CollectedRefs(second)
    ensures Evaluated(Then(first, second), takes) == Evaluated(first, takes) + Evaluated(second, takes)
  {
  }

  lemma Around(before: Expr, e: Expr, takes: Expr -> bool)
    ensures CollectedRefs(Then(before, Then(e, Nothing))) == CollectedRefs(before) + CollectedRefs(e)
    ensures Evaluated(Then(before, Then(e, Nothing)), takes) == Evaluated(before, takes) + Evaluated(e, takes)
  {
    Sequential(e, Nothing, takes);
    Sequential(before, Then(e, Nothing), takes);
    assert CollectedRefs(Nothing) == Evaluated(Nothing, takes) == [];
  }

  /** A store inside the code. */
  lemma MisjudgedInside(e: Expr, k: nat, takes: Expr -> bool, i: nat, v: Variable, after: bool)
    requires IsWellFormed(e) && Misjudges(e, k, takes, i, v, after)
    ensures !IsJudgedRightlyEverywhere(e)
  {
    var c := Then(Nothing, Then(e, Nothing));
    Around(Nothing, e, takes);
    assert [] + CollectedRefs(e) == CollectedRefs(e) && [] + Evaluated(e, takes) == Evaluated(e, takes);
    MisjudgedSomewhere(e, Nothing, k, takes, i, v, after);
  }

  function FreshId(refs: seq<Reference>): nat {
    if refs == [] then 0
    else
      var id := FreshId(refs[1..]);
      if id <= refs[0].identifier then refs[0].identifier + 1 else id
  }

  lemma {:induction false} FreshIdIsFresh(refs: seq<Reference>)
    ensures forall r :: r in refs ==> r.identifier < FreshId(refs)
  {
    if refs != [] {
      FreshIdIsFresh(refs[1..]);
      assert forall r :: r in refs ==> r == refs[0] || r in refs[1..];
    }
  }

  /** A store in front of the code. */
  lemma MisjudgedInFront(e: Expr, takes: Expr -> bool, v: Variable, after: bool)
    requires IsWellFormed(e) && !ReadFirst(CollectedRefs(e), v, after) && ReadFirst(Evaluated(e, takes), v, after)
    ensures !IsJudgedRightlyEverywhere(e)
  {
    var store := Reference(FreshId(CollectedRefs(e)), Some(v), false, true);
    var before := Use(store);
    var c := Then(before, Then(e, Nothing));
    FreshIdIsFresh(CollectedRefs(e));
    Around(before, e, takes);
    assert CollectedRefs(before) == Evaluated(before, takes) == [store];
    assert CollectedRefs(c)[1..] == CollectedRefs(e) && Evaluated(c, takes)[1..] == Evaluated(e, takes);
    MisjudgedSomewhere(e, before, 0, takes, 0, v, after);
  }

  /** With the references of a fault set apart, what is read first is seen on them alone. */
  lemma SetApartShows(refs: seq<Reference>, ids: set<nat>, name: Variable, after: bool)
    ensures ReadFirst(RefsApart(refs, ids), ['a'] + name, after)
      == ReadFirst(RefsApart(Only(refs, ids), ids), ['a'] + name, after)
  {
    var others, v := RefsApart(refs, ids), ['a'] + name;
    forall r | r in others && r.resolved == Some(v)
      ensures r.identifier in ids
    {
      var i :| 0 <= i < |others| && others[i] == r;
      assert r == RefApart(refs[i], ids) && v[0] == 'a' && r.resolved.value[0] == v[0];
    }
    OnlyMatters(others, v, ids, after);
    OnlyApart(refs, ids, ids);
  }

  lemma LostMisleads(e: Expr, f: Fault)
    requires IsWellFormed(e) && f.In(e) && f.Lost?
    ensures !IsJudgedRightlyEverywhere(Apart(e, f.Involved()))
  {
    var ids, takes := f.Involved(), f.Takes();
    LostOverwrites(f, e);
    WellFormedApart(e, ids);
    CollectedApart(e, ids);
    EvaluatedApart(e, ids, ids, false);
    NotOverwritten(Apart(e, ids), takes, CollectedRefs(e), Evaluated(e, takes), f.w);
  }

  /** The rule sees a reference overwrite that is not evaluated. */
  lemma NotOverwritten(e: Expr, takes: Expr -> bool, refs: seq<Reference>, run: seq<Reference>, w: Reference)
    requires w.resolved.Some? && Overwrites(w)
    requires var ids := {w.identifier};
      && IsWellFormed(e) && CollectedRefs(e) == RefsApart(refs, ids) && Evaluated(e, takes) == RefsApart(run, ids)
      && Only(refs, ids) == [w] && Only(run, ids) == []
    ensures !IsJudgedRightlyEverywhere(e)
  {
    var ids, name := {w.identifier}, w.resolved.value;
    SetApartShows(refs, ids, name, true);
    SetApartShows(run, ids, name, true);
    assert RefsApart([w], ids) == [RefApart(w, ids)] && RefsApart([], ids) == [];
    MisjudgedInFront(e, takes, ['a'] + name, true);
  }

  lemma SwapCases(f: Fault, refs: seq<Reference>, run: seq<Reference>)
    requires f.Swapped? && f.Appears(refs, run) && (f.p.isRead || f.p.isWrite)
    ensures Only(refs, f.Involved()) == [f.q, f.p] && f.p.resolved == f.q.resolved
    ensures f.p.isRead && Overwrites(f.q) ==>
      var seen := Only(run, f.Involved()); seen != [] && IsAccessOf(seen[0], f.p) && seen[0].isRead
    ensures !(f.p.isRead && Overwrites(f.q)) ==>
      f.p.isWrite && Only(run, f.Involved()) == Accesses(f.p) + Accesses(f.q)
  {
  }

  lemma SwapMisleads(e: Expr, f: Fault)
    requires IsWellFormed(e) && f.In(e) && f.Swapped?
    ensures !IsJudgedRightlyEverywhere(Apart(e, f.Involved()))
  {
    var ids, refs := f.Involved(), CollectedRefs(e);
    assert f.p in refs && f.q in refs by {
      OnlyIsPart(refs, ids);
      assert f.p in Only(refs, ids) && f.q in Only(refs, ids);
    }
    WellFormedApart(e, ids);
    CollectedApart(e, ids);
    EvaluatedApart(e, ids, ids, true);
    AnySwapMisleads(Apart(e, ids), f, refs, Evaluated(e, f.Takes()));
  }

  lemma AnySwapMisleads(e: Expr, f: Fault, refs: seq<Reference>, run: seq<Reference>)
    requires f.Swapped? && f.Appears(refs, run) && f.p.resolved.Some? && (f.p.isRead || f.p.isWrite)
      && (f.q.isRead || f.q.isWrite)
    requires IsWellFormed(e) && CollectedRefs(e) == RefsApart(refs, f.Involved())
    requires Evaluated(e, f.Takes()) == RefsApart(run, f.Involved())
    ensures !IsJudgedRightlyEverywhere(e)
  {
    var p, q, ids, takes := f.p, f.q, {f.p.identifier, f.q.identifier}, f.Takes();
    assert f.Involved() == ids;
    SwapCases(f, refs, run);
    if p.isRead && Overwrites(q) {
      ReadTooLate(e, takes, refs, run, p, q);
    } else {
      OtherSwapMisleads(e, takes, refs, run, p, q);
    }
  }

  lemma OtherSwapMisleads(e: Expr, takes: Expr -> bool, refs: seq<Reference>, run: seq<Reference>, p: Reference,
                          q: Reference)
    requires p.resolved == q.resolved && p.resolved.Some? && p.isWrite && !(p.isRead && Overwrites(q))
    requires q.isRead || q.isWrite
    requires var ids := {p.identifier, q.identifier};
      && IsWellFormed(e) && CollectedRefs(e) == RefsApart(refs, ids) && Evaluated(e, takes) == RefsApart(run, ids)
      && Only(refs, ids) == [q, p] && Only(run, ids) == Accesses(p) + Accesses(q)
    ensures !IsJudgedRightlyEverywhere(e)
  {
    if q.isRead {
      StoreTooLate(e, takes, refs, run, p, q);
    } else {
      assert Accesses(p) + Accesses(q) == [p, q];
      StoresTurned(e, takes, refs, run, p, q);
    }
  }

  /** The earlier reference reads, the rule sees the other one overwrite first. */
  lemma ReadTooLate(e: Expr, takes: Expr -> bool, refs: seq<Reference>, run: seq<Reference>, p: Reference, q: Reference)
    requires p.resolved == q.resolved && p.resolved.Some? && p.isRead && Overwrites(q)
    requires var ids := {p.identifier, q.identifier};
      && IsWellFormed(e) && CollectedRefs(e) == RefsApart(refs, ids) && Evaluated(e, takes) == RefsApart(run, ids)
      && Only(refs, ids) == [q, p] && Only(run, ids) != [] && IsAccessOf(Only(run, ids)[0], p)
      && Only(run, ids)[0].isRead
    ensures !IsJudgedRightlyEverywhere(e)
  {
    var ids, name := {p.identifier, q.identifier}, p.resolved.value;
    SetApartShows(refs, ids, name, true);
    SetApartShows(run, ids, name, true);
    assert RefsApart([q, p], ids)[0] == RefApart(q, ids);
    assert RefsApart(Only(run, ids), ids)[0].isRead;
    MisjudgedInFront(e, takes, ['a'] + name, true);
  }

  /** A store among the references of a fault, at its places in what is collected and in what is evaluated. */
  lemma InsideMisleads(e: Expr, takes: Expr -> bool, ids: set<nat>, refs: seq<Reference>, run: seq<Reference>,
                       collected: nat, evaluated: nat, name: Variable, after: bool)
    requires IsWellFormed(e) && CollectedRefs(e) == RefsApart(refs, ids) && Evaluated(e, takes) == RefsApart(run, ids)
    requires collected < |Only(refs, ids)| && evaluated < |Only(run, ids)|
    requires var ref := Only(refs, ids)[collected];
      ref.isWrite && IsStoreOf(Only(run, ids)[evaluated], ref, name) && ref.identifier in ids
    requires !ReadFirst(RefsApart(Only(refs, ids)[collected + 1..], ids), ['a'] + name, after)
    requires ReadFirst(RefsApart(Only(run, ids)[evaluated + 1..], ids), ['a'] + name, after)
    ensures !IsJudgedRightlyEverywhere(e)
  {
    var k := PlaceAmong(refs, ids, collected);
    var i := PlaceAmong(run, ids, evaluated);
    SetApartShows(refs[k + 1..], ids, name, after);
    SetApartShows(run[i + 1..], ids, name, after);
    assert RefsApart(refs, ids)[k + 1..] == RefsApart(refs[k + 1..], ids);
    assert RefsApart(run, ids)[i + 1..] == RefsApart(run[i + 1..], ids);
    MisjudgedInside(e, k, takes, i, ['a'] + name, after);
  }

  /** The earlier reference writes and the other one reads, which the rule sees in front of it. */
  lemma StoreTooLate(e: Expr, takes: Expr -> bool, refs: seq<Reference>, run: seq<Reference>, p: Reference,
                     q: Reference)
    requires p.resolved == q.resolved && p.resolved.Some? && p.isWrite && q.isRead
    requires var ids := {p.identifier, q.identifier};
      && IsWellFormed(e) && CollectedRefs(e) == RefsApart(refs, ids) && Evaluated(e, takes) == RefsApart(run, ids)
      && Only(refs, ids) == [q, p] && Only(run, ids) == Accesses(p) + Accesses(q)
    ensures !IsJudgedRightlyEverywhere(e)
  {
    var ids, n := {p.identifier, q.identifier}, |Accesses(p)|;
    assert Only(run, ids)[n..] == Accesses(q);
    assert RefsApart(Accesses(q), ids)[0].isRead;
    assert [q, p][2..] == [] && RefsApart([], ids) == [];
    InsideMisleads(e, takes, ids, refs, run, 1, n - 1, p.resolved.value, false);
  }

  /** Both only write, and the rule sees the earlier one last. */
  lemma StoresTurned(e: Expr, takes: Expr -> bool, refs: seq<Reference>, run: seq<Reference>, p: Reference,
                     q: Reference)
    requires p.resolved == q.resolved && p.resolved.Some? && Overwrites(p) && Overwrites(q)
    requires var ids := {p.identifier, q.identifier};
      && IsWellFormed(e) && CollectedRefs(e) == RefsApart(refs, ids) && Evaluated(e, takes) == RefsApart(run, ids)
      && Only(refs, ids) == [q, p] && Only(run, ids) == [p, q]
    ensures !IsJudgedRightlyEverywhere(e)
  {
    var ids := {p.identifier, q.identifier};
    assert [p, q][2..] == [] && RefsApart([], ids) == [];
    assert [q, p][1..] == [p] && RefsApart([p], ids) == [RefApart(p, ids)];
    InsideMisleads(e, takes, ids, refs, run, 0, 1, p.resolved.value, true);
  }

  /**
    The dead stores that the rule reports are dead in every execution of every program in
    which the code stands, whichever of its references share their variables, if and only if
    the code is orderly.
  */
  lemma JudgedRightlyExactlyWhenOrderly(e: Expr)
    requires IsWellFormed(e)
    ensures IsOrderly(e) <==> forall apart :: IsJudgedRightlyEverywhere(Apart(e, apart))
  {
    if IsOrderly(e) {
      forall apart
        ensures IsJudgedRightlyEverywhere(Apart(e, apart))
      {
        OrderlyApart(e, apart);
        OrderlyIsJudgedRightly(Apart(e, apart));
      }
    } else {
      var f := FindFault(e);
      if f.Lost? {
        LostMisleads(e, f);
      } else {
        SwapMisleads(e, f);
      }
    }
  }

  lemma OrderlyIsJudgedRightly(e: Expr)
    requires IsOrderly(e)
    ensures IsJudgedRightlyEverywhere(e)
  {
    forall p, id, before, behind | Stands(p, id, before, e, behind)
      ensures JudgesRightly(p)
    {
      assert IsOrderly(Then(before, Then(e, behind))) by { assert IsOrderly(Then(e, behind)); }
      OrderlyProgramIsJudgedRightly(p);
    }
  }

  // ----- code as it is written -----

  lemma ForeseenInOrder(first: Expr, second: Expr)
    requires IsWellFormed(Then(first, second)) && IsForeseen(first) && IsForeseen(second)
    ensures IsForeseen(Then(first, second))
  {
    PartsAreWellFormed(first, second);
    forall takes, v
      ensures Simulates(CollectedRefs(Then(first, second)), Evaluated(Then(first, second), takes), v)
    {
      EvaluationIsCovered(first, takes);
      EvaluationIsCovered(second, takes);
      assert Simulates(CollectedRefs(first), Evaluated(first, takes), v);
      assert Simulates(CollectedRefs(second), Evaluated(second, takes), v);
      InOrder(CollectedRefs(first), CollectedRefs(second), Evaluated(first, takes), Evaluated(second, takes), v);
      Sequential(first, second, takes);
    }
  }

  lemma ForeseenIsJudgedRightly(e: Expr)
    requires IsForeseen(e)
    ensures IsJudgedRightlyEverywhere(e)
  {
    forall p, id, before, behind | Stands(p, id, before, e, behind)
      ensures JudgesRightly(p)
    {
      var inner := Then(e, behind);
      assert IsWellFormed(Then(before, inner));
      PartsAreWellFormed(before, inner);
      PartsAreWellFormed(e, behind);
      OrderlyIsForeseen(before);
      OrderlyIsForeseen(behind);
      ForeseenInOrder(e, behind);
      ForeseenInOrder(before, inner);
      forall other | 0 <= other < |p.code|
        ensures IsForeseen(p.code[other])
      {
        if other != id {
          OrderlyIsForeseen(p.code[other]);
        }
      }
      ForeseenProgramIsJudgedRightly(p);
    }
  }

  /** What is not foreseen at the start misleads the rule about a store in front. */
  lemma UnforeseenStartMisleads(e: Expr, takes: Expr -> bool, v: Variable)
    requires IsWellFormed(e) && !Foresees(CollectedRefs(e), Evaluated(e, takes), v)
    ensures !IsJudgedRightlyEverywhere(e)
  {
    var after := !(ReadFirst(Evaluated(e, takes), v, false) && !ReadFirst(CollectedRefs(e), v, false));
    MisjudgedInFront(e, takes, v, after);
  }

  /** A store that is evaluated is one of the reference that is collected for it. */
  lemma StoreIsWritten(refs: seq<Reference>, run: seq<Reference>, i: nat, k: nat, v: Variable)
    requires Covers(refs, run) && AreDistinct(refs) && i < |run| && k < |refs| && IsStoreOf(run[i], refs[k], v)
    ensures refs[k].isWrite
  {
    assert run[i] in run;
    var ref :| ref in refs && IsAccessOf(run[i], ref);
    var j :| 0 <= j < |refs| && refs[j] == ref;
    assert j == k;
  }

  /** What is not foreseen behind a store misleads it about that store. */
  lemma UnforeseenStoreMisleads(e: Expr, takes: Expr -> bool, v: Variable, i: nat, k: nat)
    requires IsWellFormed(e) && i < |Evaluated(e, takes)| && k < |CollectedRefs(e)|
    requires IsStoreOf(Evaluated(e, takes)[i], CollectedRefs(e)[k], v)
    requires !Foresees(CollectedRefs(e)[k + 1..], Evaluated(e, takes)[i + 1..], v)
    ensures !IsJudgedRightlyEverywhere(e)
  {
    var refs, run := CollectedRefs(e), Evaluated(e, takes);
    EvaluationIsCovered(e, takes);
    StoreIsWritten(refs, run, i, k, v);
    var after := !(ReadFirst(run[i + 1..], v, false) && !ReadFirst(refs[k + 1..], v, false));
    MisjudgedInside(e, k, takes, i, v, after);
  }

  /**
    As it is written, code is judged rightly in every program in which it stands if and only if
    its collected references stand for each of its evaluations.
  */
  lemma JudgedRightlyExactlyWhenForeseen(e: Expr)
    requires IsWellFormed(e)
    ensures IsJudgedRightlyEverywhere(e) <==> IsForeseen(e)
  {
    if IsForeseen(e) {
      ForeseenIsJudgedRightly(e);
    } else {
      var takes, v :| !Simulates(CollectedRefs(e), Evaluated(e, takes), v);
      UnforeseenMisleads(e, takes, v);
    }
  }

  lemma UnforeseenMisleads(e: Expr, takes: Expr -> bool, v: Variable)
    requires IsWellFormed(e) && !Simulates(CollectedRefs(e), Evaluated(e, takes), v)
    ensures !IsJudgedRightlyEverywhere(e)
  {
    var refs, run := CollectedRefs(e), Evaluated(e, takes);
    if !Foresees(refs, run, v) {
      UnforeseenStartMisleads(e, takes, v);
    } else {
      var i: nat, k: nat :| i < |run| && k < |refs| && IsStoreOf(run[i], refs[k], v)
          && !Foresees(refs[k + 1..], run[i + 1..], v);
      UnforeseenStoreMisleads(e, takes, v, i, k);
    }
  }

  // ----- two programs -----

  function Read(identifier: nat, v: Variable): Expr {
    Use(Reference(identifier, Some(v), true, false))
  }

  function Write(identifier: nat, v: Variable): Expr {
    Use(Reference(identifier, Some(v), false, true))
  }

  /** What `a[i] = (j = ..)` collects and evaluates, `a`, `i` and `j` being the references. */
  lemma MemberAssignment(a: Reference, i: Reference, j: Reference, takes: Expr -> bool)
    requires !a.isWrite && !i.isWrite && !j.isRead
    ensures var e := Assign(Then(Use(a), Use(i)), Assign(Use(j), Nothing));
      CollectedRefs(e) == [j, a, i] && Evaluated(e, takes) == [a, i, j]
  {
    var target, value := Then(Use(a), Use(i)), Assign(Use(j), Nothing);
    Sequential(Use(a), Use(i), takes);
    assert CollectedRefs(value) == [j] && Evaluated(value, takes) == [j];
    assert CollectedRefs(Assign(target, value)) == [j] + [a, i];
    assert Evaluated(Assign(target, value), takes) == [a, i] + [j];
  }

  ghost predicate AreNumbered(refs: seq<Reference>) {
    forall k :: 0 <= k < |refs| ==>
      refs[k].identifier == k && refs[k].resolved.Some? && (refs[k].isRead || refs[k].isWrite)
  }

  lemma NumberedIsWellFormed(e: Expr)
    requires AreNumbered(CollectedRefs(e))
    ensures IsWellFormed(e)
  {
    var refs := CollectedRefs(e);
    forall r | r in refs
      ensures r.resolved.Some? && (r.isRead || r.isWrite)
    {
      var k :| 0 <= k < |refs| && refs[k] == r;
    }
  }

  /** With a store in front that is read, then overwritten. */
  lemma ReadThenOverwritten(c: Expr, takes: Expr -> bool, i0: Reference, i1: Reference, a: Reference, i3: Reference,
                            i4: Reference)
    requires CollectedRefs(c) == [i0, i1, a, i3, i4] && Evaluated(c, takes) == [i0, a, i3, i1, i4]
      && AreNumbered(CollectedRefs(c))
    requires i0.resolved == i1.resolved == i3.resolved && i0.resolved.Some? && a.resolved != i0.resolved
    requires Overwrites(i0) && i3.isRead && Overwrites(i1)
    ensures AtEnd(c).Valid() && !JudgesRightly(AtEnd(c))
  {
    NumberedIsWellFormed(c);
    SeenTwoWays(CollectedRefs(c)[1..], Evaluated(c, takes)[1..], i1, a, i3, i4, i0.resolved.value);
    MisjudgedAtEnd(c, 0, takes, 0, i0.resolved.value);
  }

  lemma SeenTwoWays(refs: seq<Reference>, run: seq<Reference>, i1: Reference, a: Reference, i3: Reference,
                    i4: Reference, v: Variable)
    requires refs == [i1, a, i3, i4] && run == [a, i3, i1, i4]
    requires i1.resolved == i3.resolved == Some(v) && a.resolved != Some(v) && i3.isRead && Overwrites(i1)
    ensures !ReadFirst(refs, v, false) && ReadFirst(run, v, false)
  {
    assert run[1..] == [i3, i1, i4];
  }

  lemma MemberTarget(i0: Reference, i1: Reference, a: Reference, i3: Reference, i4: Reference)
    requires AreNumbered([i0, i1, a, i3, i4])
    requires i0.resolved == i1.resolved == i3.resolved && a.resolved != i0.resolved
    requires Overwrites(i0) && Overwrites(i1) && !a.isWrite && i3.isRead && !i3.isWrite && !i4.isWrite
    ensures var second := Assign(Then(Use(a), Use(i3)), Assign(Use(i1), Nothing));
            var p := AtEnd(Then(Assign(Use(i0), Nothing), Then(second, Use(i4))));
            p.Valid() && !JudgesRightly(p)
  {
    var first, second := Assign(Use(i0), Nothing), Assign(Then(Use(a), Use(i3)), Assign(Use(i1), Nothing));
    var c, takes := Then(first, Then(second, Use(i4))), (_: Expr) => false;
    MemberAssignment(a, i3, i1, takes);
    Sequential(second, Use(i4), takes);
    Sequential(first, Then(second, Use(i4)), takes);
    assert CollectedRefs(first) == [i0] && Evaluated(first, takes) == [i0];
    assert CollectedRefs(c) == [i0] + ([i1, a, i3] + [i4]) && Evaluated(c, takes) == [i0] + ([a, i3, i1] + [i4]);
    assert [i0, i1, a, i3, i4][0] == i0;
    ReadThenOverwritten(c, takes, i0, i1, a, i3, i4);
  }

  /** `let i = g(); a[i] = (i = 2); return i;` reads the first store, which is reported. */
  lemma MemberTargetIsEvaluatedFirst()
    ensures var second := Assign(Then(Read(2, "a"), Read(3, "i")), Assign(Write(1, "i"), Nothing));
            var p := Program([[]], [Then(Assign(Write(0, "i"), Nothing), Then(second, Read(4, "i")))]);
            p.Valid() && !JudgesRightly(p)
  {
    MemberTarget(Write(0, "i").ref, Write(1, "i").ref, Read(2, "a").ref, Read(3, "i").ref, Read(4, "i").ref);
  }

  /** What `y = c ? (x = ..) : ..` collects, and evaluates when `c` is false. */
  lemma ConditionalAssignment(c: Reference, x: Reference, y: Reference)
    requires !c.isWrite && !x.isRead && !y.isRead
    ensures var e := Assign(Use(y), Branch(Use(c), Assign(Use(x), Nothing), Nothing));
      CollectedRefs(e) == [c, x, y] && Evaluated(e, _ => false) == [c, y]
  {
    var branch := Branch(Use(c), Assign(Use(x), Nothing), Nothing);
    assert CollectedRefs(Assign(Use(x), Nothing)) == [x];
    assert CollectedRefs(branch) == [c] + ([x] + []);
    assert Evaluated(branch, _ => false) == [c] + [];
    assert CollectedRefs(Assign(Use(y), branch)) == [c, x] + [y];
  }

  /** A store in front of a segment that is said to overwrite it, need not do so, and leads to a read. */
  lemma PassedBy(p: Program, takes: Expr -> bool, store: Reference, read: Reference, v: Variable)
    requires p.Valid() && p.next == [[1], [2, 3], [], []] && p.code[2] == Use(read) && read.isRead
      && read.resolved == Some(v)
    requires CollectedRefs(p.code[0]) == Evaluated(p.code[0], takes) == [store] && Overwrites(store)
      && store.resolved == Some(v)
    requires v in WritesOf(CollectedRefs(p.code[1])) && v !in ReadsOf(CollectedRefs(p.code[1]))
    requires !Accessed(Evaluated(p.code[1], takes), v)
    ensures !JudgesRightly(p)
  {
    p.SegmentsAreConsistent();
    var segments := p.Segments();
    assert v in WritesOf(segments[1].references) && v !in ReadsOf(segments[1].references);
    assert !MayLeadToRead(p.next, segments, 1, v);
    assert IsJudgedDead(p, 0, 0);
    var x := Execution(takes, 0, [1, 2], [takes, takes]);
    assert IsWalk(p.next, [2]) && [1, 2][1..] == [2] && IsWalk(p.next, [1, 2]);
    ReadBehindPath(p, takes, read, v);
    assert Behind(p, 0, x) == Executed(p, [1, 2], [takes, takes]);
    assert ReadsStore(p, 0, 0, x);
  }

  lemma ReadBehindPath(p: Program, takes: Expr -> bool, read: Reference, v: Variable)
    requires |p.code| == 4 && p.code[2] == Use(read) && read.isRead && read.resolved == Some(v)
    requires !Accessed(Evaluated(p.code[1], takes), v)
    ensures ReadFirst(Executed(p, [1, 2], [takes, takes]), v, false)
  {
    assert [1, 2][1..] == [2] && [takes, takes][1..] == [takes];
    assert Executed(p, [2], [takes]) == Accesses(read) + Executed(p, [], []) == Accesses(read);
    assert Executed(p, [1, 2], [takes, takes]) == Evaluated(p.code[1], takes) + Accesses(read);
    ReadFirstAppend(Evaluated(p.code[1], takes), Accesses(read), v, false);
    NotAccessedIsNeutral(Evaluated(p.code[1], takes), v, true);
    assert ReadFirst(Accesses(read), v, false);
  }

  lemma PartlyOverwritten(store: Reference, c: Reference, x: Reference, y: Reference, d: Reference, read: Reference,
                          other: Reference)
    requires AreNumbered([c, x, y, d]) && AreNumbered([store]) && AreNumbered([read]) && AreNumbered([other])
    requires !c.isWrite && Overwrites(x) && Overwrites(y) && !d.isWrite && Overwrites(store) && read.isRead
    requires store.resolved == x.resolved == read.resolved
    requires c.resolved != x.resolved && y.resolved != x.resolved && d.resolved != x.resolved
    ensures var conditional := Assign(Use(y), Branch(Use(c), Assign(Use(x), Nothing), Nothing));
            var p := Program([[1], [2, 3], [], []],
                             [Assign(Use(store), Nothing), Then(conditional, Use(d)), Use(read), Use(other)]);
            p.Valid() && !JudgesRightly(p)
  {
    var conditional, takes := Assign(Use(y), Branch(Use(c), Assign(Use(x), Nothing), Nothing)), (_: Expr) => false;
    var first, second := Assign(Use(store), Nothing), Then(conditional, Use(d));
    var p := Program([[1], [2, 3], [], []], [first, second, Use(read), Use(other)]);
    ConditionalAssignment(c, x, y);
    Sequential(conditional, Use(d), takes);
    assert CollectedRefs(second) == [c, x, y, d] && Evaluated(second, takes) == [c, y, d];
    assert [store][0] == store && [c, x, y, d][1] == x;
    NumberedIsWellFormed(first);
    NumberedIsWellFormed(second);
    NumberedIsWellFormed(Use(read));
    NumberedIsWellFormed(Use(other));
    FourSegments(p);
    AccessesOf(second, takes, c, x, y, d, x.resolved.value);
    PassedBy(p, takes, store, read, x.resolved.value);
  }

  lemma FourSegments(p: Program)
    requires p.next == [[1], [2, 3], [], []] && |p.code| == 4
    requires IsWellFormed(p.code[0]) && IsWellFormed(p.code[1]) && IsWellFormed(p.code[2]) && IsWellFormed(p.code[3])
    ensures p.Valid()
  {
  }

  lemma AccessesOf(e: Expr, takes: Expr -> bool, c: Reference, x: Reference, y: Reference, d: Reference, v: Variable)
    requires CollectedRefs(e) == [c, x, y, d] && Evaluated(e, takes) == [c, y, d]
    requires Overwrites(x) && x.resolved == Some(v) && c.resolved != Some(v) && y.resolved != Some(v)
      && d.resolved != Some(v)
    ensures v in WritesOf(CollectedRefs(e)) && v !in ReadsOf(CollectedRefs(e)) && !Accessed(Evaluated(e, takes), v)
  {
    assert x in CollectedRefs(e);
  }

  /**
    `let x = g(); let y = c ? (x = 1) : 0; if (d) { return x; } return y;`: the first store is
    reported, and read if `c` is false.
  */
  lemma BranchIsTakenForAlwaysEvaluated()
    ensures var conditional := Assign(Write(2, "y"), Branch(Read(0, "c"), Assign(Write(1, "x"), Nothing), Nothing));
            var p := Program([[1], [2, 3], [], []],
                             [Assign(Write(0, "x"), Nothing), Then(conditional, Read(3, "d")), Read(0, "x"),
                              Read(0, "y")]);
            p.Valid() && !JudgesRightly(p)
  {
    PartlyOverwritten(Write(0, "x").ref, Read(0, "c").ref, Write(1, "x").ref, Write(2, "y").ref, Read(3, "d").ref,
                      Read(0, "x").ref, Read(0, "y").ref);
  }

  /** A read in front hides the clash from stores in front of it, and one behind the store hides it from the store. */
  lemma ShieldedIsSimulated(i0: Reference, i1: Reference, a: Reference, i3: Reference, v: Variable)
    requires AreNumbered([i0, i1, a, i3]) && i0.resolved == i1.resolved == i3.resolved && a.resolved != i0.resolved
    requires !i0.isWrite && Overwrites(i1) && !a.isWrite && !i3.isWrite
    ensures Simulates([i0, i1, a, i3], [a, i3, i0, i1], v)
  {
    var refs, run := [i0, i1, a, i3], [a, i3, i0, i1];
    assert refs[0].isRead && refs[2].isRead && refs[3].isRead;
    assert run[1..] == [i3, i0, i1] && run[4..] == [];
    assert refs[1..] == [i1, a, i3] && refs[2..] == [a, i3] && [a, i3][1..] == [i3];
    if v == i0.resolved.value {
      forall i, k | 0 <= i < |run| && 0 <= k < |refs| && IsStoreOf(run[i], refs[k], v)
        ensures Foresees(refs[k + 1..], run[i + 1..], v)
      {
        assert i == 3 && k == 1 by { assert refs[1] == i1; }
      }
    } else {
      OthersAreForeseen(i0, i1, a, i3, v);
    }
  }

  lemma OthersAreForeseen(i0: Reference, i1: Reference, a: Reference, i3: Reference, v: Variable)
    requires i0.resolved != Some(v) && i1.resolved != Some(v) && i3.resolved != Some(v) && !a.isWrite
    ensures Simulates([i0, i1, a, i3], [a, i3, i0, i1], v)
  {
    assert Simulates([a], [a], v);
    assert !Accessed([i0, i1], v) && !Accessed([i3], v) && !Accessed([], v) && !Accessed([i3, i0, i1], v);
    AddUnaccessed([i0, i1], [a], [i3], [], [a], [i3, i0, i1], v);
    assert [i0, i1] + [a] + [i3] == [i0, i1, a, i3] && [] + [a] + [i3, i0, i1] == [a, i3, i0, i1];
  }

  /** What `a[i] = (j, k = ..)` collects and evaluates. */
  lemma ShieldedAssignment(i0: Reference, i1: Reference, a: Reference, i3: Reference, takes: Expr -> bool)
    requires !i0.isWrite && !i1.isRead && !a.isWrite && !i3.isWrite
    ensures var e := Assign(Then(Use(a), Use(i3)), Then(Use(i0), Assign(Use(i1), Nothing)));
      CollectedRefs(e) == [i0, i1, a, i3] && Evaluated(e, takes) == [a, i3, i0, i1]
  {
    var target, store := Then(Use(a), Use(i3)), Assign(Use(i1), Nothing);
    var value := Then(Use(i0), store);
    assert CollectedRefs(store) == [i1];
    assert Evaluated(store, takes) == Evaluated(Nothing, takes) + Evaluated(Use(i1), takes) == [i1];
    Sequential(Use(a), Use(i3), takes);
    Sequential(Use(i0), store, takes);
    assert CollectedRefs(Assign(target, value)) == [i0, i1] + [a, i3];
    assert Evaluated(Assign(target, value), takes) == [a, i3] + [i0, i1];
  }

  lemma Shielded(i0: Reference, i1: Reference, a: Reference, i3: Reference)
    requires AreNumbered([i0, i1, a, i3]) && i0.resolved == i1.resolved == i3.resolved && a.resolved != i0.resolved
    requires !i0.isWrite && Overwrites(i1) && !a.isWrite && !i3.isWrite
    ensures var e := Assign(Then(Use(a), Use(i3)), Then(Use(i0), Assign(Use(i1), Nothing)));
      !IsOrderly(e) && IsJudgedRightlyEverywhere(e)
  {
    var target, value := Then(Use(a), Use(i3)), Then(Use(i0), Assign(Use(i1), Nothing));
    var e := Assign(target, value);
    forall takes, v
      ensures Simulates(CollectedRefs(e), Evaluated(e, takes), v)
    {
      ShieldedAssignment(i0, i1, a, i3, takes);
      ShieldedIsSimulated(i0, i1, a, i3, v);
    }
    ForeseenIsJudgedRightly(e);
    var store := Assign(Use(i1), Nothing);
    assert CollectedRefs(store) == [] + [i1] == [i1];
    Sequential(Use(i0), store, _ => false);
    assert CollectedRefs(target) == [a, i3] && CollectedRefs(value) == [i0] + CollectedRefs(store) == [i0, i1];
    assert i3 in [a, i3] && i1 in [i0, i1] && Conflict(i3, i1);
  }

  /** `a[i] = (i, i = 2)` is not orderly, yet judged rightly wherever it stands. */
  lemma ShieldedClashIsJudgedRightly()
    ensures var e := Assign(Then(Read(2, "a"), Read(3, "i")), Then(Read(0, "i"), Assign(Write(1, "i"), Nothing)));
      !IsOrderly(e) && IsJudgedRightlyEverywhere(e)
  {
    Shielded(Read(0, "i").ref, Write(1, "i").ref, Read(2, "a").ref, Read(3, "i").ref);
  }
}
