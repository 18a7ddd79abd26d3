/**
  The dependencies visible from a file: those of the `package.json` of every directory
  above it, with one cache per directory and one per starting directory.  Both caches
  hold set objects; the set handed out is the cached one.
*/
module ImplicitDependencies {
  // ----- path.dirname on POSIX -----

  /** The position of the last slash that ends a non-empty parent, scanning down from `i`; 0 if there is none. */
  function ParentEnd(path: string, i: nat, matchedSlash: bool): (end: nat)
    requires i < |path|
    ensures end <= i
  {
    if i == 0 then 0
    else if path[i] == '/' then if matchedSlash then ParentEnd(path, i - 1, true) else i
    else ParentEnd(path, i - 1, false)
  }

  function Dirname(path: string): string {
    if path == "" then "."
    else
      var hasRoot := path[0] == '/';
      var end := ParentEnd(path, |path| - 1, true);
      if end == 0 then if hasRoot then "/" else "."
      else if hasRoot && end == 1 then "//"
      else path[..end]
  }

  /** Decreases with every step upwards, until a directory is its own parent. */
  function Rank(path: string): nat {
    if path == "." || path == "/" then 0 else |path| + 1
  }

  lemma DirnameClimbs(path: string)
    ensures Dirname(path) == path || Rank(Dirname(path)) < Rank(path)
  {
    if path != "" {
      var end := ParentEnd(path, |path| - 1, true);
      assert end < |path|;
      if |path| == 1 {
        assert end == 0;
      }
      if end == |path| - 1 && |path| > 1 {
        LastIsNotParentEnd(path);
      }
    }
  }

  lemma LastIsNotParentEnd(path: string)
    requires |path| > 1
    ensures ParentEnd(path, |path| - 1, true) < |path| - 1
  {
  }

  // ----- what the caches stand for -----

  type Files = string -> set<string>  // the dependencies of the package.json of a directory; none without one

  ghost function DependenciesAbove(deps: Files, dir: string): set<string>
    decreases Rank(dir)
  {
    DirnameClimbs(dir);
    deps(dir) + if Dirname(dir) == dir then {} else DependenciesAbove(deps, Dirname(dir))
  }

  /** The directory `k` levels up. */
  function Ancestor(dir: string, k: nat): string {
    if k == 0 then dir else Dirname(Ancestor(dir, k - 1))
  }

  lemma {:induction false} AncestorOfParent(dir: string, k: nat)
    ensures Ancestor(Dirname(dir), k) == Ancestor(dir, k + 1)
  {
    if k > 0 {
      AncestorOfParent(dir, k - 1);
    }
  }

  lemma {:induction false} FixedAncestor(dir: string, k: nat)
    requires Dirname(dir) == dir
    ensures Ancestor(dir, k) == dir
  {
    if k > 0 {
      FixedAncestor(dir, k - 1);
    }
  }

  lemma {:induction false} FoundInSomeAncestor(deps: Files, dir: string, x: string) returns (k: nat)
    requires x in DependenciesAbove(deps, dir)
    ensures x in deps(Ancestor(dir, k))
    decreases Rank(dir)
  {
    DirnameClimbs(dir);
    k := 0;
    if x !in deps(dir) {
      var j := FoundInSomeAncestor(deps, Dirname(dir), x);
      AncestorOfParent(dir, j);
      k := j + 1;
    }
  }

  lemma {:induction false} EveryAncestorCounts(deps: Files, dir: string, k: nat)
    ensures deps(Ancestor(dir, k)) <= DependenciesAbove(deps, dir)
    decreases k
  {
    DirnameClimbs(dir);
    if Dirname(dir) == dir {
      FixedAncestor(dir, k);
    } else if k > 0 {
      AncestorOfParent(dir, k - 1);
      EveryAncestorCounts(deps, Dirname(dir), k - 1);
    }
  }

  /** Exactly the dependencies of the directory and of all directories above it. */
  lemma AboveIsUnionOverAncestors(deps: Files, dir: string, x: string)
    ensures x in DependenciesAbove(deps, dir) <==> exists k: nat :: x in deps(Ancestor(dir, k))
  {
    if x in DependenciesAbove(deps, dir) {
      var k := FoundInSomeAncestor(deps, dir, x);
    }
    if k: nat :| x in deps(Ancestor(dir, k)) {
      EveryAncestorCounts(deps, dir, k);
    }
  }

  // ----- the directories above an absolute path -----

  predicate IsName(name: string) {
    name != "" && '/' !in name && name != "." && name != ".."
  }

  predicate AreNames(names: seq<string>) {
    forall i :: 0 <= i < |names| ==> IsName(names[i])
  }

  /** The absolute path with these names. */
  function Absolute(names: seq<string>): string {
    if names == [] then "/"
    else (if |names| == 1 then "" else Absolute(names[..|names| - 1])) + "/" + names[|names| - 1]
  }

  /** Scanning down over a name stops at the slash in front of it. */
  lemma {:induction false} ScanName(path: string, i: nat, slash: nat, matchedSlash: bool)
    requires slash <= i < |path| && path[slash] == '/' && forall j :: slash < j <= i ==> path[j] != '/'
    requires i == slash ==> !matchedSlash
    ensures ParentEnd(path, i, matchedSlash) == slash
    decreases i
  {
    if slash < i {
      ScanName(path, i - 1, slash, false);
    }
  }

  lemma {:induction false} AbsoluteIsRooted(names: seq<string>)
    requires names != [] && AreNames(names)
    ensures |Absolute(names)| > 1 && Absolute(names)[0] == '/'
  {
    if |names| > 1 {
      AbsoluteIsRooted(names[..|names| - 1]);
    }
  }

  /** The parent of a name below a rooted prefix. */
  lemma DirnameOfName(prefix: string, name: string)
    requires IsName(name) && (prefix != "" ==> |prefix| > 1 && prefix[0] == '/')
    ensures Dirname(prefix + "/" + name) == if prefix == "" then "/" else prefix
  {
    var path := prefix + "/" + name;
    assert path[0] == '/' && path[|prefix|] == '/' && path[..|prefix|] == prefix;
    forall j | |prefix| < j <= |path| - 1
      ensures path[j] != '/'
    {
      assert path[j] == name[j - |prefix| - 1];
    }
    ScanName(path, |path| - 1, |prefix|, true);
  }

  /** All names but the last. */
  function Parent(names: seq<string>): seq<string> {
    if names == [] then [] else names[..|names| - 1]
  }

  lemma DirnameOfAbsolute(names: seq<string>)
    requires AreNames(names)
    ensures Dirname(Absolute(names)) == Absolute(Parent(names))
  {
    if |names| > 1 {
      AbsoluteIsRooted(Parent(names));
      DirnameOfName(Absolute(Parent(names)), names[|names| - 1]);
    } else if |names| == 1 {
      DirnameOfName("", names[0]);
    }
  }

  /** The names `k` levels up. */
  function Up(names: seq<string>, k: nat): seq<string> {
    names[..if k <= |names| then |names| - k else 0]
  }

  lemma UpOneMore(names: seq<string>, k: nat)
    ensures Up(names, 0) == names && Up(names, k + 1) == Parent(Up(names, k))
  {
  }

  /** Going up from an absolute path passes exactly its prefixes, and ends at the root. */
  lemma {:induction false} AncestorOfAbsolute(names: seq<string>, k: nat)
    requires AreNames(names)
    ensures Ancestor(Absolute(names), k) == Absolute(Up(names, k))
  {
    if k == 0 {
      UpOneMore(names, 0);
    } else {
      AncestorOfAbsolute(names, k - 1);
      DirnameOfAbsolute(Up(names, k - 1));
      UpOneMore(names, k - 1);
    }
  }

  /** On the way from an absolute directory to the root. */
  ghost predicate FoundOnTheWay(deps: Files, names: seq<string>, x: string) {
    exists n :: 0 <= n <= |names| && x in deps(Absolute(names[..n]))
  }

  lemma FoundAboveIsOnTheWay(deps: Files, names: seq<string>, x: string)
    requires AreNames(names) && x in DependenciesAbove(deps, Absolute(names))
    ensures FoundOnTheWay(deps, names, x)
  {
    var k := FoundInSomeAncestor(deps, Absolute(names), x);
    AncestorOfAbsolute(names, k);
    var n := if k <= |names| then |names| - k else 0;
    assert x in deps(Absolute(names[..n]));
  }

  lemma SomeAncestorIsAbove(deps: Files, dir: string, upper: string, k: nat, x: string)
    requires upper == Ancestor(dir, k) && x in deps(upper)
    ensures x in DependenciesAbove(deps, dir)
  {
    EveryAncestorCounts(deps, dir, k);
  }

  lemma PrefixIsAncestor(names: seq<string>, n: nat) returns (k: nat)
    requires AreNames(names) && n <= |names|
    ensures Absolute(names[..n]) == Ancestor(Absolute(names), k)
  {
    k := |names| - n;
    AncestorOfAbsolute(names, k);
    assert Up(names, k) == names[..n];
  }

  /** For an absolute directory the union is that over the directories on the way to the root. */
  lemma AboveAbsolute(deps: Files, names: seq<string>, x: string)
    requires AreNames(names)
    ensures x in DependenciesAbove(deps, Absolute(names)) <==> FoundOnTheWay(deps, names, x)
  {
    if x in DependenciesAbove(deps, Absolute(names)) {
      FoundAboveIsOnTheWay(deps, names, x);
    } else if n :| 0 <= n <= |names| && x in deps(Absolute(names[..n])) {
      var k := PrefixIsAncestor(names, n);
      SomeAncestorIsAbove(deps, Absolute(names), Absolute(names[..n]), k, x);
    }
  }

  /** A relative name is cut at `.`, which is no ancestor of `..`. */
  lemma RelativeNamesEndAtDot()
    ensures Dirname("../x.ts") == ".." && Dirname("..") == "." && Dirname(".") == "."
  {
    ScanName("../x.ts", 6, 2, true);
    assert ParentEnd("..", 1, true) == ParentEnd("..", 0, false) == 0;
    assert "../x.ts"[..2] == "..";
  }

  // ----- the resolver -----

  class StringSet {
    var elements: set<string>

    constructor (elements: set<string>)
      ensures this.elements == elements
    {
      this.elements := elements;
    }
  }

  class Resolver {
    const deps: Files
    var cache: map<string, StringSet>
    var dirCache: map<string, StringSet>

    constructor (deps: Files)
      ensures this.deps == deps && Valid() && cache == map[] && dirCache == map[]
    {
      this.deps := deps;
      cache, dirCache := map[], map[];
    }

    /** Both caches agree with their uncached meaning. */
    ghost predicate Valid()
      reads this, cache.Values, dirCache.Values
    {
      DirCacheValid() && forall dir :: dir in cache ==> cache[dir].elements == DependenciesAbove(deps, dir)
    }

    ghost predicate DirCacheValid()
      reads this, dirCache.Values
    {
      forall dir :: dir in dirCache ==> dirCache[dir].elements == deps(dir)
    }

    /** One directory of the walk: its own dependencies, cached or not, go into the result. */
    method AddDirectory(dirname: string, result: StringSet)
      requires DirCacheValid() && result !in dirCache.Values
      modifies this`dirCache, result
      ensures DirCacheValid() && result !in dirCache.Values
      ensures result.elements == old(result.elements) + deps(dirname)
      ensures dirname in dirCache && dirCache == old(dirCache)[dirname := dirCache[dirname]]
      ensures dirname in old(dirCache) ==> dirCache == old(dirCache)
    {
      if dirname in dirCache {
        result.elements := result.elements + dirCache[dirname].elements;
      } else {
        var dep := new StringSet(deps(dirname));
        result.elements := result.elements + dep.elements;
        dirCache := dirCache[dirname := dep];
      }
    }

    method GetDependencies(fileName: string) returns (result: StringSet)
      requires Valid()
      modifies this
      ensures Valid() && result.elements == DependenciesAbove(deps, Dirname(fileName))
      ensures Dirname(fileName) in cache && cache[Dirname(fileName)] == result
      ensures forall dir :: dir in old(cache) ==> dir in cache && cache[dir] == old(cache)[dir]
    {
      var dirname := Dirname(fileName);
      if dirname in cache {
        return cache[dirname];
      }
      result := new StringSet({});
      cache := cache[dirname := result];
      ghost var start := dirname;
      while true
        invariant cache == old(cache)[start := result] && fresh(result)
        invariant DirCacheValid() && result !in dirCache.Values
        invariant result.elements + DependenciesAbove(deps, dirname) == DependenciesAbove(deps, start)
        decreases Rank(dirname)
      {
        ghost var above := DependenciesAbove(deps, dirname);
        AddDirectory(dirname, result);
        var upperDir := Dirname(dirname);
        DirnameClimbs(dirname);
        if upperDir == dirname {
          break;
        } else {
          dirname := upperDir;
        }
      }
    }
  }
}
