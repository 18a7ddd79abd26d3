/**
  The rule on file permissions: resolving a mode through the unique definitions of
  variables, which may be cyclic, and testing its low three bits.  Numbers are integers.
*/
module FilePermissions {
  import opened Wrappers

  datatype Mode = Null | Undefined | NaN | Num(value: int)

  datatype Expr =
    | Member(isFsConstants: bool, property: Property)
    | StringLiteral(text: string)
    | NumberLiteral(raw: string)
    | OtherLiteral
    | Identifier(name: string)
    | BitwiseOr(left: Expr, right: Expr)
    | OtherBinary(left: Expr, right: Expr)
    | OtherExpr

  /** The property of a member expression: one of the constants of `fs`, another identifier, or not an identifier. */
  datatype Property =
    | S_IRWXU | S_IRUSR | S_IWUSR | S_IXUSR
    | S_IRWXG | S_IRGRP | S_IWGRP | S_IXGRP
    | S_IRWXO | S_IROTH | S_IWOTH | S_IXOTH
    | OtherIdentifier
    | Computed

  type NodeId = nat

  /**
    `usage` gives the node uniquely written to a variable, `nodes` the expression at that
    node.  The mode of an expression that refers to nothing else and the operator `|` are
    fields too, so that resolving can be judged without looking into them.
  */
  datatype Definitions = Definitions(usage: map<string, NodeId>, nodes: map<NodeId, Expr>,
                                     leafMode: Expr -> Mode, bitwiseOr: (int, int) -> int)
  {
    predicate Defines(name: string) {
      name in usage && usage[name] in nodes
    }

    function Of(name: string): Expr
      requires Defines(name)
    {
      nodes[usage[name]]
    }
  }

  // ----- literals and constants -----

  predicate StartsWith(s: string, prefix: string) {
    prefix <= s
  }

  /** The digit that a character stands for, 16 if it is none. */
  function DigitOf(c: char): nat {
    if '0' <= c <= '9' then c as int - '0' as int
    else if 'a' <= c <= 'f' then c as int - 'a' as int + 10
    else if 'A' <= c <= 'F' then c as int - 'A' as int + 10
    else 16
  }

  predicate AreDigits(s: string, radix: nat) {
    forall i :: 0 <= i < |s| ==> DigitOf(s[i]) < radix
  }

  /** The number behind `acc` and the digits of `s`; separators count for nothing. */
  function ValueIn(s: string, radix: nat, acc: nat): nat {
    if s == "" then acc else ValueIn(s[1..], radix, if s[0] == '_' then acc else radix * acc + DigitOf(s[0]))
  }

  function Pow(radix: nat, n: nat): nat {
    if n == 0 then 1 else radix * Pow(radix, n - 1)
  }

  function Places(s: string): nat {
    if s == "" then 0 else Places(s[1..]) + if s[0] == '_' then 0 else 1
  }

  /** The number that digits denote, each by its place. */
  function PlaceValue(s: string, radix: nat): nat {
    if s == "" then 0
    else PlaceValue(s[1..], radix) + if s[0] == '_' then 0 else DigitOf(s[0]) * Pow(radix, Places(s[1..]))
  }

  lemma OneMorePlace(radix: nat, acc: nat, d: nat, p: nat)
    ensures (radix * acc + d) * p == acc * (radix * p) + d * p
  {
  }

  /** Reading digits from left to right gives the number that they denote. */
  lemma {:induction false} ReadingIsByPlace(s: string, radix: nat, acc: nat)
    ensures ValueIn(s, radix, acc) == acc * Pow(radix, Places(s)) + PlaceValue(s, radix)
  {
    if s != "" {
      var rest, d := s[1..], DigitOf(s[0]);
      if s[0] == '_' {
        ReadingIsByPlace(rest, radix, acc);
      } else {
        ReadingIsByPlace(rest, radix, radix * acc + d);
        var p := Pow(radix, Places(rest));
        OneMorePlace(radix, acc, d, p);
        OneMoreDigit(rest, radix);
        assert ValueIn(s, radix, acc) == ValueIn(rest, radix, radix * acc + d);
        assert PlaceValue(s, radix) == PlaceValue(rest, radix) + d * p;
      }
    }
  }

  lemma OneMoreDigit(rest: string, radix: nat)
    ensures Pow(radix, Places(rest) + 1) == radix * Pow(radix, Places(rest))
  {
  }

  function OctalPrefix(s: string): string {
    if s != "" && DigitOf(s[0]) < 8 then [s[0]] + OctalPrefix(s[1..]) else ""
  }

  function SkipSpaces(s: string): string {
    if s != "" && s[0] in {' ', '\t', '\n', '\r'} then SkipSpaces(s[1..]) else s
  }

  /** Number.parseInt(s, 8). */
  function ParseOctal(s: string): Mode {
    var t := SkipSpaces(s);
    var negative := StartsWith(t, "-");
    var digits := OctalPrefix(if negative || StartsWith(t, "+") then t[1..] else t);
    if digits == "" then NaN else Num(if negative then 0 - ValueIn(digits, 8, 0) else ValueIn(digits, 8, 0))
  }

  /** The radix that the second character of a literal chooses, 0 if it chooses none. */
  function PrefixRadix(raw: string): nat {
    if |raw| < 3 || raw[0] != '0' then 0
    else if raw[1] in {'x', 'X'} then 16
    else if raw[1] in {'o', 'O'} then 8
    else if raw[1] in {'b', 'B'} then 2
    else 0
  }

  /**
    The number that a literal denotes (sections 12.9.3 and B.1.1 of ECMA-262, 14th edition):
    hexadecimal, octal, binary, legacy octal like 0777, or decimal, also behind a zero as in 089.
  */
  function LiteralValue(raw: string): nat {
    if PrefixRadix(raw) != 0 then PlaceValue(raw[2..], PrefixRadix(raw))
    else if StartsWith(raw, "0") && AreDigits(raw, 8) then PlaceValue(raw, 8)
    else PlaceValue(raw, 10)
  }

  /** Literals that start with a zero and have no prefix consist of decimal digits. */
  predicate IsIntegerLiteral(raw: string) {
    StartsWith(raw, "0") && PrefixRadix(raw) == 0 ==> AreDigits(raw, 10)
  }

  /** The values that the constants of `fs` have on Linux, by owner, group and others. */
  function FsConstant(p: Property): Mode {
    match p
    case S_IRWXU => Num(7 * 64) case S_IRUSR => Num(4 * 64) case S_IWUSR => Num(2 * 64) case S_IXUSR => Num(64)
    case S_IRWXG => Num(7 * 8)  case S_IRGRP => Num(4 * 8)  case S_IWGRP => Num(2 * 8)  case S_IXGRP => Num(8)
    case S_IRWXO => Num(7)      case S_IROTH => Num(4)      case S_IWOTH => Num(2)      case S_IXOTH => Num(1)
    case OtherIdentifier => Undefined
    case Computed => Null
  }

  /** The mode of an expression that refers to nothing else; Null for the others. */
  function LeafMode(e: Expr): Mode {
    match e
    case Member(isFsConstants, property) => if isFsConstants then FsConstant(property) else Null
    case StringLiteral(text) => ParseOctal(text)
    case NumberLiteral(raw) => ReadLiteral(raw)
    case _ => Null
  }

  /** What the rule takes a number literal for: one that starts with a zero is read as octal digits. */
  function ReadLiteral(raw: string): Mode {
    if StartsWith(raw, "0") && !StartsWith(raw, "0o") then ParseOctal(raw) else Num(LiteralValue(raw))
  }

  /** Whose permissions a constant is about, as the place of its octal digit, and which. */
  function Whose(p: Property): nat {
    match p
    case S_IRWXU => 2 case S_IRUSR => 2 case S_IWUSR => 2 case S_IXUSR => 2
    case S_IRWXG => 1 case S_IRGRP => 1 case S_IWGRP => 1 case S_IXGRP => 1
    case _ => 0
  }

  /** Read is 4, write 2, execute 1. */
  function Which(p: Property): nat {
    if p in {S_IRWXU, S_IRWXG, S_IRWXO} then 4 + 2 + 1
    else if p in {S_IRUSR, S_IRGRP, S_IROTH} then 4
    else if p in {S_IWUSR, S_IWGRP, S_IWOTH} then 2
    else 1
  }

  /** The value of an expression that refers to nothing else: a string of octal digits denotes a mode too. */
  function LeafValue(e: Expr): Mode {
    match e
    case NumberLiteral(raw) => Num(LiteralValue(raw))
    case StringLiteral(text) => if text != "" && AreDigits(text, 8) then Num(PlaceValue(text, 8)) else LeafMode(e)
    case Member(isFsConstants, property) =>
      if isFsConstants && !property.OtherIdentifier?
        && !property.Computed? then Num(Which(property) * Pow(8, Whose(property)))
      else LeafMode(e)
    case _ => LeafMode(e)
  }

  /** Strings and constants are read rightly. */
  lemma OtherLeavesAreReadRightly(e: Expr)
    requires !e.NumberLiteral?
    ensures LeafMode(e) == LeafValue(e)
  {
    if e.StringLiteral? && e.text != "" && AreDigits(e.text, 8) {
      OctalPrefixOfDigits(e.text);
      ReadingIsByPlace(e.text, 8, 0);
    } else if e.Member? {
      assert Pow(8, 0) == 1 && Pow(8, 1) == 8 && Pow(8, 2) == 64;
    }
  }

  // ----- literals that are read rightly -----

  /** Not led by a zero, marked by 0o, made of octal digits, or zero anyway. */
  predicate IsReadRightly(raw: string) {
    !StartsWith(raw, "0") || StartsWith(raw, "0o") || AreDigits(raw, 8) || LiteralValue(raw) == 0
  }

  /** The rule takes a literal for the number that it denotes exactly when it is of these forms. */
  lemma LiteralIsReadRightly(raw: string)
    requires IsIntegerLiteral(raw)
    ensures ReadLiteral(raw) == Num(LiteralValue(raw)) <==> IsReadRightly(raw)
  {
    if StartsWith(raw, "0") && !StartsWith(raw, "0o") {
      assert raw[0] == '0';
      ReadingIsByPlace(raw, 8, 0);
      ReadingIsByPlace(raw, 10, 0);
      assert ParseOctal(raw) == Num(ValueIn(OctalPrefix(raw), 8, 0));
      if PrefixRadix(raw) != 0 {
        PrefixedIsReadAsZero(raw);
      } else if AreDigits(raw, 8) {
        OctalPrefixOfDigits(raw);
      } else {
        DecimalExceeds(raw, 0, 0);
      }
    }
  }

  /** Of `0x1ff` only the zero is read. */
  lemma PrefixedIsReadAsZero(raw: string)
    requires PrefixRadix(raw) != 0
    ensures ValueIn(OctalPrefix(raw), 8, 0) == 0 && !AreDigits(raw, 8)
  {
    assert DigitOf(raw[1]) >= 8;
    assert OctalPrefix(raw[1..]) == "";
    assert OctalPrefix(raw) == ['0'];
  }

  lemma {:induction false} OctalPrefixOfDigits(s: string)
    requires AreDigits(s, 8)
    ensures OctalPrefix(s) == s
  {
    if s != "" {
      OctalPrefixOfDigits(s[1..]);
    }
  }

  lemma {:induction false} ValueGrows(s: string, acc: nat)
    ensures ValueIn(s, 10, acc) >= acc
  {
    if s != "" {
      ValueGrows(s[1..], if s[0] == '_' then acc else 10 * acc + DigitOf(s[0]));
    }
  }

  /** Of `0189` the rule reads 01 in octal, which is less than the number in decimal. */
  lemma {:induction false} DecimalExceeds(s: string, decimal: nat, octal: nat)
    requires AreDigits(s, 10) && !AreDigits(s, 8) && decimal >= octal
    ensures ValueIn(s, 10, decimal) > ValueIn(OctalPrefix(s), 8, octal)
  {
    var d := DigitOf(s[0]);
    assert s[0] != '_';
    if d < 8 {
      var rest := s[1..];
      assert !AreDigits(rest, 8) by {
        var i :| 0 <= i < |s| && DigitOf(s[i]) >= 8;
        assert rest[i - 1] == s[i];
      }
      DecimalExceeds(rest, 10 * decimal + d, 8 * octal + d);
      assert OctalPrefix(s)[1..] == OctalPrefix(rest);
    } else {
      ValueGrows(s[1..], 10 * decimal + d);
    }
  }

  // ----- bits -----

  const TWO_TO_32: int := 0x1_0000_0000

  function OrBits(a: nat, b: nat): nat {
    if a == 0 && b == 0 then 0
    else 2 * OrBits(a / 2, b / 2) + if a % 2 == 1 || b % 2 == 1 then 1 else 0
  }

  function Bit(n: nat, k: nat): bool {
    if k == 0 then n % 2 == 1 else Bit(n / 2, k - 1)
  }

  function ToUint32(x: int): nat {
    x % TWO_TO_32
  }

  /** The operator `|` on numbers: both operands as 32-bit words, the result signed. */
  function Or32(x: int, y: int): int {
    ToInt32(OrBits(ToUint32(x), ToUint32(y)))
  }

  function ToInt32(u: nat): int {
    if u >= TWO_TO_32 / 2 then u - TWO_TO_32 else u
  }

  /** The operator `%`, which truncates towards zero. */
  function Rem(x: int, m: int): int
    requires m > 0
  {
    if x >= 0 then x % m else -((-x) % m)
  }

  lemma {:induction false} OrBitsIsBitwise(a: nat, b: nat, k: nat)
    ensures Bit(OrBits(a, b), k) <==> Bit(a, k) || Bit(b, k)
    decreases k
  {
    if k > 0 {
      OrBitsIsBitwise(a / 2, b / 2, k - 1);
    } else {
      assert OrBits(0, 0) == 0;
    }
  }

  lemma ThreeDigits(n: nat)
    ensures n % 8 == 4 * ((n / 2 / 2) % 2) + 2 * ((n / 2) % 2) + n % 2
  {
    var m := n / 2;
    var p := m / 2;
    var q := p / 2;
    assert n == 2 * m + n % 2 && m == 2 * p + m % 2 && p == 2 * q + p % 2;
    var low := 4 * (p % 2) + 2 * (m % 2) + n % 2;
    assert n == 8 * q + low && 0 <= low < 8;
    RemainderOf(n, q, low);
  }

  lemma RemainderOf(n: nat, q: nat, low: nat)
    requires n == 8 * q + low && low < 8
    ensures n % 8 == low
  {
  }

  lemma LowThreeBits(n: nat)
    ensures n % 8 != 0 <==> Bit(n, 0) || Bit(n, 1) || Bit(n, 2)
  {
    ThreeDigits(n);
    assert Bit(n, 1) == Bit(n / 2, 0);
    assert Bit(n, 2) == Bit(n / 2, 1);
    assert Bit(n / 2, 1) == Bit(n / 2 / 2, 0);
  }

  lemma OrBitsLow(a: nat, b: nat)
    ensures OrBits(a, b) % 8 != 0 <==> a % 8 != 0 || b % 8 != 0
  {
    LowThreeBits(a);
    LowThreeBits(b);
    LowThreeBits(OrBits(a, b));
    OrBitsIsBitwise(a, b, 0);
    OrBitsIsBitwise(a, b, 1);
    OrBitsIsBitwise(a, b, 2);
  }

  lemma WordKeepsLowBits(x: int)
    ensures ToUint32(x) % 8 == 0 <==> Rem(x, 8) == 0
  {
  }

  lemma SignKeepsLowBits(u: nat)
    ensures Rem(ToInt32(u), 8) == 0 <==> u % 8 == 0
  {
  }

  /** The low three bits of an `|` are clear exactly when those of both operands are. */
  lemma OrIsFlaggedExactlyThroughAnOperand(x: int, y: int)
    ensures Rem(Or32(x, y), 8) != 0 <==> Rem(x, 8) != 0 || Rem(y, 8) != 0
  {
    WordKeepsLowBits(x);
    WordKeepsLowBits(y);
    SignKeepsLowBits(OrBits(ToUint32(x), ToUint32(y)));
    OrBitsLow(ToUint32(x), ToUint32(y));
  }

  // ----- resolving -----

  predicate Truthy(m: Mode) {
    m.Num? && m.value != 0
  }

  function OrMode(defs: Definitions, l: Mode, r: Mode): Mode {
    if Truthy(l) && Truthy(r) then Num(defs.bitwiseOr(l.value, r.value)) else Null
  }

  datatype Resolution = Resolution(mode: Mode, visited: set<NodeId>)

  function Unvisited(defs: Definitions, visited: set<NodeId>): nat {
    |defs.nodes.Keys - visited|
  }

  lemma FewerUnvisited(defs: Definitions, small: set<NodeId>, large: set<NodeId>)
    requires small <= large
    ensures Unvisited(defs, large) <= Unvisited(defs, small)
    ensures forall n :: n in defs.nodes && n in large && n !in small ==> Unvisited(defs, large) < Unvisited(defs, small)
  {
    var a, b := defs.nodes.Keys - large, defs.nodes.Keys - small;
    SubsetSize(a, b);
    forall n | n in defs.nodes && n in large && n !in small
      ensures |a| < |b|
    {
      SubsetSize(a, b - {n});
    }
  }

  lemma {:induction false} SubsetSize(a: set<NodeId>, b: set<NodeId>)
    requires a <= b
    ensures |a| <= |b|
  {
    if a != {} {
      var x :| x in a;
      SubsetSize(a - {x}, b - {x});
    }
  }

  /** What `modeFromExpression` computes: unvisited definitions, then expression size, decrease. */
  function Resolve(defs: Definitions, e: Expr, visited: set<NodeId>): (r: Resolution)
    ensures visited <= r.visited
    decreases Unvisited(defs, visited), e
  {
    match e
    case Identifier(name) =>
      if defs.Defines(name) && defs.usage[name] !in visited then
        FewerUnvisited(defs, visited, visited + {defs.usage[name]});
        Resolve(defs, defs.Of(name), visited + {defs.usage[name]})
      else Resolution(Null, visited)
    case BitwiseOr(left, right) =>
      var l := Resolve(defs, left, visited);
      FewerUnvisited(defs, visited, l.visited);
      var r := Resolve(defs, right, l.visited);
      Resolution(OrMode(defs, l.mode, r.mode), r.visited)
    case _ => Resolution(defs.leafMode(e), visited)
  }

  /**
    The value of an expression with definitions substituted up to `depth` times, `leaf` giving
    the values of leaves; None where that does not settle it.
  */
  function Meaning(defs: Definitions, e: Expr, depth: nat, leaf: Expr -> Mode): Option<Mode>
    decreases depth, e
  {
    match e
    case Identifier(name) =>
      if defs.Defines(name) && depth > 0 then Meaning(defs, defs.Of(name), depth - 1, leaf) else None
    case BitwiseOr(left, right) =>
      var l, r := Meaning(defs, left, depth, leaf), Meaning(defs, right, depth, leaf);
      if l.Some? && r.Some? && l.value.Num? && r.value.Num? then Some(Num(defs.bitwiseOr(l.value.value, r.value.value)))
      else None
    case _ => Some(leaf(e))
  }

  /** The value as the rule reads the leaves. */
  function Reading(defs: Definitions, e: Expr, depth: nat): Option<Mode> {
    Meaning(defs, e, depth, defs.leafMode)
  }

  // ----- when a mode is found -----

  /** The definitions behind the identifiers of an expression, left to right, those inside a definition behind it. */
  function Uses(defs: Definitions, e: Expr, depth: nat): seq<NodeId>
    decreases depth, e
  {
    match e
    case Identifier(name) =>
      if defs.Defines(name) && depth > 0 then [defs.usage[name]] + Uses(defs, defs.Of(name), depth - 1) else []
    case BitwiseOr(left, right) => Uses(defs, left, depth) + Uses(defs, right, depth)
    case _ => []
  }

  /** Every identifier has a definition, every leaf a mode, and no operand of an `|` has the value zero. */
  predicate IsNonZeroThroughout(defs: Definitions, e: Expr, depth: nat)
    decreases depth, e
  {
    match e
    case Identifier(name) => defs.Defines(name) && depth > 0 && IsNonZeroThroughout(defs, defs.Of(name), depth - 1)
    case BitwiseOr(left, right) =>
      && IsNonZeroThroughout(defs, left, depth) && IsNonZeroThroughout(defs, right, depth)
      && IsNonZero(Reading(defs, left, depth)) && IsNonZero(Reading(defs, right, depth))
    case _ => !defs.leafMode(e).Null?
  }

  predicate IsNonZero(value: Option<Mode>) {
    value.Some? && value.value.Num? && value.value.value != 0
  }

  predicate IsDistinct(uses: seq<NodeId>) {
    forall i, j :: 0 <= i < j < |uses| ==> uses[i] != uses[j]
  }

  ghost predicate Avoids(uses: seq<NodeId>, visited: set<NodeId>) {
    forall n :: n in uses ==> n !in visited
  }

  ghost function Elements(uses: seq<NodeId>): set<NodeId> {
    set n | n in uses
  }

  lemma DistinctParts(a: seq<NodeId>, b: seq<NodeId>, visited: set<NodeId>)
    ensures IsDistinct(a + b) && Avoids(a + b, visited)
       <==> IsDistinct(a) && Avoids(a, visited) && IsDistinct(b) && Avoids(b, visited + Elements(a))
  {
    var ab := a + b;
    assert forall i :: 0 <= i < |a| ==> ab[i] == a[i];
    assert forall i :: 0 <= i < |b| ==> ab[|a| + i] == b[i];
    if IsDistinct(a) && IsDistinct(b) && Avoids(b, visited + Elements(a)) {
      forall i, j | 0 <= i < j < |ab|
        ensures ab[i] != ab[j]
      {
        if i < |a| <= j {
          assert ab[i] in Elements(a) && ab[j] in b;
        } else if |a| <= i {
          assert b[i - |a|] != b[j - |a|];
        }
      }
    }
  }

  /** What unfolding an expression to some depth shows: whether nothing is zero, the definitions used, the value. */
  datatype Unfolding = Unfolding(nonZero: bool, uses: seq<NodeId>, meaning: Option<Mode>)

  function Unfold(defs: Definitions, e: Expr, depth: nat): Unfolding {
    Unfolding(IsNonZeroThroughout(defs, e, depth), Uses(defs, e, depth), Reading(defs, e, depth))
  }

  /**
    A mode is found exactly when nothing is zero and no definition is needed again, `visited`
    being followed before.
  */
  ghost predicate FoundExactly(u: Unfolding, visited: set<NodeId>, r: Resolution) {
    && (!r.mode.Null? <==> u.nonZero && IsDistinct(u.uses) && Avoids(u.uses, visited))
    && (!r.mode.Null? ==> r.visited == visited + Elements(u.uses) && u.meaning == Some(r.mode))
  }

  lemma {:induction false} ResolvesExactly(defs: Definitions, e: Expr, visited: set<NodeId>, depth: nat)
    requires depth >= Unvisited(defs, visited)
    ensures FoundExactly(Unfold(defs, e, depth), visited, Resolve(defs, e, visited))
    decreases Unvisited(defs, visited), e, 1
  {
    match e
    case Identifier(name) => NameResolvesExactly(defs, name, visited, depth);
    case BitwiseOr(left, right) => OrResolvesExactly(defs, left, right, visited, depth);
    case _ => LeafResolvesExactly(defs, e, visited, depth);
  }

  lemma LeafResolvesExactly(defs: Definitions, e: Expr, visited: set<NodeId>, depth: nat)
    requires !e.Identifier? && !e.BitwiseOr?
    ensures FoundExactly(Unfold(defs, e, depth), visited, Resolve(defs, e, visited))
  {
    assert Unfold(defs, e, depth) == Unfolding(!defs.leafMode(e).Null?, [], Some(defs.leafMode(e)));
    assert Resolve(defs, e, visited) == Resolution(defs.leafMode(e), visited);
    assert visited + Elements([]) == visited;
  }

  lemma {:induction false} NameResolvesExactly(defs: Definitions, name: string, visited: set<NodeId>, depth: nat)
    requires depth >= Unvisited(defs, visited)
    ensures FoundExactly(Unfold(defs, Identifier(name), depth), visited, Resolve(defs, Identifier(name), visited))
    decreases Unvisited(defs, visited), Identifier(name), 0
  {
    if defs.Defines(name) {
      var n := defs.usage[name];
      if n !in visited {
        FewerUnvisited(defs, visited, visited + {n});
        ResolvesExactly(defs, defs.Of(name), visited + {n}, depth - 1);
        DefinitionFound(n, Unfold(defs, defs.Of(name), depth - 1), visited,
                        Resolve(defs, defs.Of(name), visited + {n}));
      } else if depth > 0 {
        assert n in Uses(defs, Identifier(name), depth);
      }
    }
  }

  lemma {:induction false} OrResolvesExactly(defs: Definitions, left: Expr, right: Expr, visited: set<NodeId>,
                                             depth: nat)
    requires depth >= Unvisited(defs, visited)
    ensures FoundExactly(Unfold(defs, BitwiseOr(left, right), depth), visited,
                         Resolve(defs, BitwiseOr(left, right), visited))
    decreases Unvisited(defs, visited), BitwiseOr(left, right), 0
  {
    var l := Resolve(defs, left, visited);
    FewerUnvisited(defs, visited, l.visited);
    ResolvesExactly(defs, left, visited, depth);
    ResolvesExactly(defs, right, l.visited, depth);
    OrIsFound(defs, left, right, visited, depth);
  }

  lemma OrIsFound(defs: Definitions, left: Expr, right: Expr, visited: set<NodeId>, depth: nat)
    requires FoundExactly(Unfold(defs, left, depth), visited, Resolve(defs, left, visited))
    requires var l := Resolve(defs, left, visited);
      FoundExactly(Unfold(defs, right, depth), l.visited, Resolve(defs, right, l.visited))
    ensures FoundExactly(Unfold(defs, BitwiseOr(left, right), depth), visited,
                         Resolve(defs, BitwiseOr(left, right), visited))
  {
    var l := Resolve(defs, left, visited);
    var r := Resolve(defs, right, l.visited);
    ResolveOr(defs, left, right, visited);
    OrFound(defs, Unfold(defs, left, depth), Unfold(defs, right, depth), Unfold(defs, BitwiseOr(left, right), depth),
            visited, l, r);
  }

  lemma ResolveOr(defs: Definitions, left: Expr, right: Expr, visited: set<NodeId>)
    ensures var l := Resolve(defs, left, visited); var r := Resolve(defs, right, l.visited);
      Resolve(defs, BitwiseOr(left, right), visited) == Resolution(OrMode(defs, l.mode, r.mode), r.visited)
  {
  }

  lemma DefinitionFound(n: NodeId, inner: Unfolding, visited: set<NodeId>, r: Resolution)
    requires FoundExactly(inner, visited + {n}, r) && n !in visited
    ensures FoundExactly(inner.(uses := [n] + inner.uses), visited, r)
  {
    DistinctParts([n], inner.uses, visited);
    assert Elements([n]) == {n};
    assert Elements([n] + inner.uses) == {n} + Elements(inner.uses);
    assert visited + {n} + Elements(inner.uses) == visited + Elements([n] + inner.uses);
  }

  lemma OrFound(defs: Definitions, a: Unfolding, b: Unfolding, u: Unfolding, visited: set<NodeId>, l: Resolution,
                r: Resolution)
    requires FoundExactly(a, visited, l) && FoundExactly(b, l.visited, r)
    requires u.uses == a.uses + b.uses
      && u.nonZero == (a.nonZero && b.nonZero && IsNonZero(a.meaning) && IsNonZero(b.meaning))
    requires IsNonZero(a.meaning) && IsNonZero(b.meaning) ==>
      u.meaning == Some(Num(defs.bitwiseOr(a.meaning.value.value, b.meaning.value.value)))
    ensures FoundExactly(u, visited, Resolution(OrMode(defs, l.mode, r.mode), r.visited))
  {
    DistinctParts(a.uses, b.uses, visited);
    assert Elements(a.uses + b.uses) == Elements(a.uses) + Elements(b.uses);
    assert visited + Elements(a.uses) + Elements(b.uses) == visited + Elements(a.uses + b.uses);
  }

  /** Unfolding every definition once is enough to see whether a mode is found. */
  predicate IsResolvable(defs: Definitions, e: Expr) {
    IsNonZeroThroughout(defs, e, |defs.nodes|) && IsDistinct(Uses(defs, e, |defs.nodes|))
  }

  /** The leaves of an expression with definitions substituted, left to right. */
  function Leaves(defs: Definitions, e: Expr, depth: nat): seq<Expr>
    decreases depth, e
  {
    match e
    case Identifier(name) => if defs.Defines(name) && depth > 0 then Leaves(defs, defs.Of(name), depth - 1) else []
    case BitwiseOr(left, right) => Leaves(defs, left, depth) + Leaves(defs, right, depth)
    case _ => [e]
  }

  lemma {:induction false} SameLeavesSameMeaning(defs: Definitions, e: Expr, depth: nat, f: Expr -> Mode,
                                                 g: Expr -> Mode)
    requires forall x :: x in Leaves(defs, e, depth) ==> f(x) == g(x)
    ensures Meaning(defs, e, depth, f) == Meaning(defs, e, depth, g)
    decreases depth, e
  {
    match e
    case Identifier(name) =>
      if defs.Defines(name) && depth > 0 {
        SameLeavesSameMeaning(defs, defs.Of(name), depth - 1, f, g);
      }
    case BitwiseOr(left, right) =>
      SameLeavesSameMeaning(defs, left, depth, f, g);
      SameLeavesSameMeaning(defs, right, depth, f, g);
    case _ => assert e in Leaves(defs, e, depth);
  }

  /** Every number literal is of a form that the rule reads rightly. */
  predicate AreReadRightly(leaves: seq<Expr>) {
    forall x :: x in leaves && x.NumberLiteral? ==> IsIntegerLiteral(x.raw) && IsReadRightly(x.raw)
  }

  lemma ReadRightlyMeansValues(leaves: seq<Expr>)
    requires AreReadRightly(leaves)
    ensures forall x :: x in leaves ==> LeafMode(x) == LeafValue(x)
  {
    forall x | x in leaves
      ensures LeafMode(x) == LeafValue(x)
    {
      if x.NumberLiteral? {
        LiteralIsReadRightly(x.raw);
      } else {
        OtherLeavesAreReadRightly(x);
      }
    }
  }

  /**
    A mode is found if and only if no definition is used twice and no operand is zero, as the
    rule reads the leaves.  Then it is the value read, and the value itself if every literal is
    read rightly.
  */
  lemma ResolvedModeIsTheMeaning(defs: Definitions, e: Expr)
    ensures !Resolve(defs, e, {}).mode.Null? <==> IsResolvable(defs, e)
    ensures IsResolvable(defs, e) ==> Reading(defs, e, |defs.nodes|) == Some(Resolve(defs, e, {}).mode)
    ensures IsResolvable(defs, e) && defs.leafMode == LeafMode && AreReadRightly(Leaves(defs, e, |defs.nodes|)) ==>
      Meaning(defs, e, |defs.nodes|, LeafValue) == Some(Resolve(defs, e, {}).mode)
  {
    assert defs.nodes.Keys - {} == defs.nodes.Keys;
    ResolvesExactly(defs, e, {}, |defs.nodes|);
    if defs.leafMode == LeafMode && AreReadRightly(Leaves(defs, e, |defs.nodes|)) {
      ReadRightlyMeansValues(Leaves(defs, e, |defs.nodes|));
      SameLeavesSameMeaning(defs, e, |defs.nodes|, LeafMode, LeafValue);
    }
  }

  class ModeResolver {
    const defs: Definitions
    var visited: set<NodeId>

    constructor (defs: Definitions)
      ensures this.defs == defs && visited == {}
    {
      this.defs := defs;
      visited := {};
    }

    method ModeFromExpression(e: Option<Expr>) returns (mode: Mode)
      modifies this
      ensures e.None? ==> mode == Null && visited == old(visited)
      ensures e.Some? ==> Resolution(mode, visited) == Resolve(defs, e.value, old(visited))
      ensures e.Some? ==> FoundExactly(Unfold(defs, e.value, |defs.nodes|), old(visited), Resolution(mode, visited))
      decreases e.Some?, if e.Some? then Unvisited(defs, visited) else 0, e
    {
      if e.None? {
        return Null;
      }
      mode := ModeFrom(e.value);
      assert defs.nodes.Keys - {} == defs.nodes.Keys;
      FewerUnvisited(defs, {}, old(visited));
      ResolvesExactly(defs, e.value, old(visited), |defs.nodes|);
    }

    method ModeFrom(e: Expr) returns (mode: Mode)
      modifies this
      ensures Resolution(mode, visited) == Resolve(defs, e, old(visited))
      decreases Unvisited(defs, visited), e
    {
      match e {
        case Identifier(name) =>
          if defs.Defines(name) && defs.usage[name] !in visited {
            FewerUnvisited(defs, visited, visited + {defs.usage[name]});
            visited := visited + {defs.usage[name]};
            mode := ModeFrom(defs.Of(name));
          } else {
            mode := Null;
          }
        case BitwiseOr(left, right) =>
          var leftValue := ModeFrom(left);
          FewerUnvisited(defs, old(visited), visited);
          var rightValue := ModeFrom(right);
          mode := Null;
          if Truthy(leftValue) && Truthy(rightValue) {
            mode := Num(defs.bitwiseOr(leftValue.value, rightValue.value));
          }
        case _ => mode := defs.leafMode(e);
      }
    }
  }

  /** The value, read by `leaf`, is a number with another remainder than `moduloTest`. */
  ghost predicate HasWrongRemainder(defs: Definitions, e: Expr, leaf: Expr -> Mode, moduloTest: int) {
    exists m :: Meaning(defs, e, |defs.nodes|, leaf) == Some(Num(m)) && Rem(m, 8) != moduloTest
  }

  /**
    An argument is flagged exactly when it can be resolved and what the rule reads has the
    wrong remainder, which is the value where every literal is read rightly.
  */
  method CheckModeArgument(usage: map<string, NodeId>, nodes: map<NodeId, Expr>, node: Option<Expr>, moduloTest: int)
    returns (flagged: bool)
    ensures var defs := Definitions(usage, nodes, LeafMode, Or32);
      flagged <==>
        node.Some? && IsResolvable(defs, node.value) && HasWrongRemainder(defs, node.value, LeafMode, moduloTest)
    ensures var defs := Definitions(usage, nodes, LeafMode, Or32);
      node.Some? && AreReadRightly(Leaves(defs, node.value, |nodes|)) ==>
      (flagged <==> IsResolvable(defs, node.value) && HasWrongRemainder(defs, node.value, LeafValue, moduloTest))
  {
    var defs := Definitions(usage, nodes, LeafMode, Or32);
    var resolver := new ModeResolver(defs);
    var mode := resolver.ModeFromExpression(node);
    flagged := mode.Num? && Rem(mode.value, 8) != moduloTest;
    if node.Some? {
      ResolvedModeIsTheMeaning(defs, node.value);
    }
  }

  predicate Flags(m: Mode) {
    m.Num? && Rem(m.value, 8) != 0
  }

  ghost predicate KeepsLowBits(or: (int, int) -> int) {
    forall x, y :: Rem(or(x, y), 8) != 0 <==> Rem(x, 8) != 0 || Rem(y, 8) != 0
  }

  lemma Or32KeepsLowBits()
    ensures KeepsLowBits(Or32)
  {
    forall x, y
      ensures Rem(Or32(x, y), 8) != 0 <==> Rem(x, 8) != 0 || Rem(y, 8) != 0
    {
      OrIsFlaggedExactlyThroughAnOperand(x, y);
    }
  }

  /**
    An `|` is flagged for giving permissions to others exactly when both operands resolve to modes
    and one of them gives some.
  */
  lemma FlaggedOrHasFlaggedOperand(defs: Definitions, left: Expr, right: Expr, visited: set<NodeId>)
    requires KeepsLowBits(defs.bitwiseOr)
    ensures var l := Resolve(defs, left, visited); var r := Resolve(defs, right, l.visited);
      Flags(Resolve(defs, BitwiseOr(left, right), visited).mode)
      <==> Truthy(l.mode) && Truthy(r.mode) && (Flags(l.mode) || Flags(r.mode))
  {
  }

  /** The same for the definitions and the `|` that arguments are checked with. */
  lemma FlaggedOrArgument(usage: map<string, NodeId>, nodes: map<NodeId, Expr>, left: Expr, right: Expr,
                          visited: set<NodeId>)
    ensures var defs := Definitions(usage, nodes, LeafMode, Or32);
      var l := Resolve(defs, left, visited); var r := Resolve(defs, right, l.visited);
      Flags(Resolve(defs, BitwiseOr(left, right), visited).mode)
      <==> Truthy(l.mode) && Truthy(r.mode) && (Flags(l.mode) || Flags(r.mode))
  {
    Or32KeepsLowBits();
    FlaggedOrHasFlaggedOperand(Definitions(usage, nodes, LeafMode, Or32), left, right, visited);
  }

  // ----- exactly when the mode found is the value -----

  predicate WordBit(x: int, k: nat) {
    Bit(ToUint32(x), k)
  }

  /** `or` yields signed words whose bits are those of its operands. */
  ghost predicate IsBitwise(or: (int, int) -> int) {
    forall x, y ::
      IsWord(or(x, y)) && forall k: nat :: k < 32 ==> (WordBit(or(x, y), k) <==> WordBit(x, k) || WordBit(y, k))
  }

  predicate IsWord(x: int) {
    -TWO_TO_32 / 2 <= x < TWO_TO_32 / 2
  }

  function Power(n: nat): nat {
    if n == 0 then 1 else 2 * Power(n - 1)
  }

  lemma {:induction false} OrBitsStayBelow(a: nat, b: nat, n: nat)
    requires a < Power(n) && b < Power(n)
    ensures OrBits(a, b) < Power(n)
    decreases n
  {
    if n > 0 {
      OrBitsStayBelow(a / 2, b / 2, n - 1);
    }
  }

  lemma {:induction false} SameBitsSameNumber(a: nat, b: nat, n: nat)
    requires a < Power(n) && b < Power(n) && forall k: nat :: k < n ==> (Bit(a, k) <==> Bit(b, k))
    ensures a == b
  {
    if n > 0 {
      assert Bit(a, 0) == Bit(b, 0);
      forall k: nat | k < n - 1
        ensures Bit(a / 2, k) <==> Bit(b / 2, k)
      {
        assert Bit(a, k + 1) == Bit(b, k + 1);
      }
      SameBitsSameNumber(a / 2, b / 2, n - 1);
    }
  }

  lemma PowerOf32()
    ensures Power(32) == TWO_TO_32
  {
    assert Power(4) == 16 && Power(8) == 256;
    assert Power(12) == 4096 && Power(16) == 65536;
    assert Power(20) == 0x10_0000 && Power(24) == 0x100_0000;
    assert Power(28) == 0x1000_0000;
  }

  lemma SignedWord(u: nat)
    requires u < TWO_TO_32
    ensures IsWord(ToInt32(u)) && ToUint32(ToInt32(u)) == u
  {
  }

  lemma Or32IsBitwise()
    ensures IsBitwise(Or32)
  {
    forall x, y
      ensures IsWord(Or32(x, y))
      ensures forall k: nat :: k < 32 ==> (WordBit(Or32(x, y), k) <==> WordBit(x, k) || WordBit(y, k))
    {
      PowerOf32();
      OrBitsStayBelow(ToUint32(x), ToUint32(y), 32);
      SignedWord(OrBits(ToUint32(x), ToUint32(y)));
      forall k: nat | k < 32
        ensures WordBit(Or32(x, y), k) <==> WordBit(x, k) || WordBit(y, k)
      {
        OrBitsIsBitwise(ToUint32(x), ToUint32(y), k);
      }
    }
  }

  /** Words with the same bits are the same. */
  lemma SameWords(x: int, y: int)
    requires IsWord(x) && IsWord(y) && forall k: nat :: k < 32 ==> (WordBit(x, k) <==> WordBit(y, k))
    ensures x == y
  {
    PowerOf32();
    forall k: nat | k < 32
      ensures Bit(ToUint32(x), k) <==> Bit(ToUint32(y), k)
    {
      assert WordBit(x, k) <==> WordBit(y, k);
    }
    SameBitsSameNumber(ToUint32(x), ToUint32(y), 32);
  }

  ghost predicate SomeHasBit(leaves: seq<Expr>, leaf: Expr -> Mode, k: nat) {
    exists x :: x in leaves && leaf(x).Num? && WordBit(leaf(x).value, k)
  }

  /** The bits of the value are those of the leaves, and with two leaves or more it is a word. */
  lemma {:induction false} MeaningHasBitsOfLeaves(defs: Definitions, e: Expr, depth: nat, leaf: Expr -> Mode)
    requires IsBitwise(defs.bitwiseOr) && IsNumber(Meaning(defs, e, depth, leaf))
    ensures var m, leaves := Meaning(defs, e, depth, leaf).value.value, Leaves(defs, e, depth);
      && leaves != [] && (forall x :: x in leaves ==> leaf(x).Num?)
      && (forall k: nat :: k < 32 ==> (WordBit(m, k) <==> SomeHasBit(leaves, leaf, k)))
      && if |leaves| == 1 then leaf(leaves[0]) == Num(m) else IsWord(m)
    decreases depth, e
  {
    match e
    case Identifier(name) => MeaningHasBitsOfLeaves(defs, defs.Of(name), depth - 1, leaf);
    case BitwiseOr(left, right) =>
      MeaningHasBitsOfLeaves(defs, left, depth, leaf);
      MeaningHasBitsOfLeaves(defs, right, depth, leaf);
      OrHasBitsOfLeaves(Leaves(defs, left, depth), Leaves(defs, right, depth), leaf);
    case _ =>
  }

  predicate IsNumber(value: Option<Mode>) {
    value.Some? && value.value.Num?
  }

  lemma OrHasBitsOfLeaves(a: seq<Expr>, b: seq<Expr>, leaf: Expr -> Mode)
    ensures forall k: nat :: SomeHasBit(a + b, leaf, k) <==> SomeHasBit(a, leaf, k) || SomeHasBit(b, leaf, k)
  {
    assert forall x :: x in a + b <==> x in a || x in b;
  }

  lemma {:induction false} LeavesOfDefined(defs: Definitions, e: Expr, depth: nat)
    requires IsNonZeroThroughout(defs, e, depth)
    ensures Leaves(defs, e, depth) != []
    decreases depth, e
  {
    match e
    case Identifier(name) => LeavesOfDefined(defs, defs.Of(name), depth - 1);
    case BitwiseOr(left, right) => LeavesOfDefined(defs, left, depth);
    case _ =>
  }

  lemma {:induction false} OneLeaf(defs: Definitions, e: Expr, depth: nat, leaf: Expr -> Mode)
    requires IsNonZeroThroughout(defs, e, depth) && |Leaves(defs, e, depth)| == 1
    ensures Meaning(defs, e, depth, leaf) == Some(leaf(Leaves(defs, e, depth)[0]))
    decreases depth, e
  {
    match e
    case Identifier(name) => OneLeaf(defs, defs.Of(name), depth - 1, leaf);
    case BitwiseOr(left, right) =>
      LeavesOfDefined(defs, left, depth);
      LeavesOfDefined(defs, right, depth);
    case _ =>
  }

  lemma {:induction false} ManyLeaves(defs: Definitions, e: Expr, depth: nat)
    requires IsNonZeroThroughout(defs, e, depth) && |Leaves(defs, e, depth)| > 1
    ensures IsNumber(Reading(defs, e, depth))
    decreases depth, e
  {
    if e.Identifier? {
      ManyLeaves(defs, defs.Of(e.name), depth - 1);
    }
  }

  lemma {:induction false} NumbersMeanANumber(defs: Definitions, e: Expr, depth: nat, leaf: Expr -> Mode)
    requires IsNonZeroThroughout(defs, e, depth) && forall x :: x in Leaves(defs, e, depth) ==> leaf(x).Num?
    ensures IsNumber(Meaning(defs, e, depth, leaf))
    decreases depth, e
  {
    match e
    case Identifier(name) => NumbersMeanANumber(defs, defs.Of(name), depth - 1, leaf);
    case BitwiseOr(left, right) =>
      NumbersMeanANumber(defs, left, depth, leaf);
      NumbersMeanANumber(defs, right, depth, leaf);
    case _ => assert e in Leaves(defs, e, depth);
  }

  /** Where the rule reads a number, there is one. */
  lemma NumberReadIsNumber(defs: Definitions, e: Expr, depth: nat)
    requires IsBitwise(defs.bitwiseOr) && defs.leafMode == LeafMode
    requires IsNonZeroThroughout(defs, e, depth) && IsNumber(Reading(defs, e, depth))
    ensures IsNumber(Meaning(defs, e, depth, LeafValue))
  {
    MeaningHasBitsOfLeaves(defs, e, depth, LeafMode);
    forall x | x in Leaves(defs, e, depth)
      ensures LeafValue(x).Num?
    {
      if !x.NumberLiteral? {
        OtherLeavesAreReadRightly(x);
      }
    }
    NumbersMeanANumber(defs, e, depth, LeafValue);
  }

  /**
    The mode found is the value if and only if a single leaf is read rightly, or the leaves of
    an `|` together have the same bits as they are read.
  */
  lemma ModeIsTheValueExactly(usage: map<string, NodeId>, nodes: map<NodeId, Expr>, e: Expr)
    requires IsResolvable(Definitions(usage, nodes, LeafMode, Or32), e)
    ensures var defs := Definitions(usage, nodes, LeafMode, Or32); var leaves := Leaves(defs, e, |nodes|);
      Meaning(defs, e, |nodes|, LeafValue) == Some(Resolve(defs, e, {}).mode) <==>
      if |leaves| == 1 then LeafMode(leaves[0]) == LeafValue(leaves[0])
      else forall k: nat :: k < 32 ==> (SomeHasBit(leaves, LeafMode, k) <==> SomeHasBit(leaves, LeafValue, k))
  {
    var defs := Definitions(usage, nodes, LeafMode, Or32);
    ResolvedModeIsTheMeaning(defs, e);
    LeavesOfDefined(defs, e, |nodes|);
    Or32IsBitwise();
    ReadingIsTheValueExactly(defs, e, |nodes|);
  }

  lemma ReadingIsTheValueExactly(defs: Definitions, e: Expr, depth: nat)
    requires IsBitwise(defs.bitwiseOr) && defs.leafMode == LeafMode && IsNonZeroThroughout(defs, e, depth)
    ensures var leaves := Leaves(defs, e, depth);
      Meaning(defs, e, depth, LeafValue) == Reading(defs, e, depth) <==>
      if |leaves| == 1 then LeafMode(leaves[0]) == LeafValue(leaves[0])
      else forall k: nat :: k < 32 ==> (SomeHasBit(leaves, LeafMode, k) <==> SomeHasBit(leaves, LeafValue, k))
  {
    LeavesOfDefined(defs, e, depth);
    if |Leaves(defs, e, depth)| == 1 {
      OneLeaf(defs, e, depth, LeafMode);
      OneLeaf(defs, e, depth, LeafValue);
    } else {
      ManyLeaves(defs, e, depth);
      NumberReadIsNumber(defs, e, depth);
      MeaningHasBitsOfLeaves(defs, e, depth, LeafMode);
      MeaningHasBitsOfLeaves(defs, e, depth, LeafValue);
      var x, y := Reading(defs, e, depth).value.value, Meaning(defs, e, depth, LeafValue).value.value;
      if forall k: nat :: k < 32 ==> (WordBit(x, k) <==> WordBit(y, k)) {
        SameWords(x, y);
      }
    }
  }

  ghost predicate SomeHasLowBit(leaves: seq<Expr>, leaf: Expr -> Mode) {
    SomeHasBit(leaves, leaf, 0) || SomeHasBit(leaves, leaf, 1) || SomeHasBit(leaves, leaf, 2)
  }

  lemma FlagsByLowBits(m: int)
    ensures Flags(Num(m)) <==> WordBit(m, 0) || WordBit(m, 1) || WordBit(m, 2)
  {
    WordKeepsLowBits(m);
    LowThreeBits(ToUint32(m));
  }

  /**
    An argument that is read as a number is flagged for others exactly as its value is, if and
    only if low bits are read where there are some.
  */
  lemma FlagIsRightExactly(usage: map<string, NodeId>, nodes: map<NodeId, Expr>, e: Expr)
    requires var defs := Definitions(usage, nodes, LeafMode, Or32);
      IsResolvable(defs, e) && Resolve(defs, e, {}).mode.Num?
    ensures var defs := Definitions(usage, nodes, LeafMode, Or32); var leaves := Leaves(defs, e, |nodes|);
      && IsNumber(Meaning(defs, e, |nodes|, LeafValue))
      && ((Flags(Resolve(defs, e, {}).mode) <==> Flags(Meaning(defs, e, |nodes|, LeafValue).value)) <==>
          (SomeHasLowBit(leaves, LeafMode) <==> SomeHasLowBit(leaves, LeafValue)))
  {
    var defs := Definitions(usage, nodes, LeafMode, Or32);
    ResolvedModeIsTheMeaning(defs, e);
    Or32IsBitwise();
    NumberReadIsNumber(defs, e, |nodes|);
    MeaningHasBitsOfLeaves(defs, e, |nodes|, LeafMode);
    MeaningHasBitsOfLeaves(defs, e, |nodes|, LeafValue);
    FlagsByLowBits(Resolve(defs, e, {}).mode.value);
    FlagsByLowBits(Meaning(defs, e, |nodes|, LeafValue).value.value);
  }

  /** The visited set is shared, so a definition used twice is only followed once: `x | x` resolves to null. */
  lemma SecondUseIsNotFollowed()
    ensures var defs := Definitions(map["x" := 0], map[0 := NumberLiteral("7")], LeafMode, Or32);
            var e := BitwiseOr(Identifier("x"), Identifier("x"));
            Resolve(defs, e, {}).mode.Null? && Meaning(defs, e, 1, LeafValue) == Some(Num(7))
  {
    SevenIsSeven();
  }

  /** An operand that is zero counts as one without a mode: `0 | 7` resolves to null. */
  lemma ZeroOperandIsDropped(usage: map<string, NodeId>, nodes: map<NodeId, Expr>)
    ensures var defs := Definitions(usage, nodes, LeafMode, Or32);
            var e := BitwiseOr(NumberLiteral("0"), NumberLiteral("7"));
            Resolve(defs, e, {}).mode.Null? && Meaning(defs, e, 0, LeafValue) == Some(Num(7))
  {
    SevenIsSeven();
  }

  lemma SevenIsSeven()
    ensures Or32(7, 7) == 7 && Or32(0, 7) == 7
    ensures LiteralValue("7") == 7 && ReadLiteral("7") == Num(7) && LiteralValue("0") == 0 && ReadLiteral("0") == Num(0)
  {
    assert OrBits(1, 1) == 1 && OrBits(0, 1) == 1;
    assert OrBits(3, 3) == 3 && OrBits(0, 3) == 3;
    assert OrBits(7, 7) == 7 && OrBits(0, 7) == 7;
    assert PlaceValue("7", 10) == PlaceValue("", 10) + 7 * Pow(10, Places(""));
    assert PlaceValue("0", 8) == PlaceValue("", 8) + 0 * Pow(8, Places(""));
    LiteralIsReadRightly("0");
  }

  /** `0x1ff` is 511, which gives permissions to others; the rule takes it for 0 and does not flag it. */
  lemma HexLiteralIsReadAsZero(usage: map<string, NodeId>, nodes: map<NodeId, Expr>)
    ensures var defs := Definitions(usage, nodes, LeafMode, Or32); var e := NumberLiteral("0x1ff");
            && Resolve(defs, e, {}).mode == Num(0) && !Flags(Num(0))
            && Meaning(defs, e, 0, LeafValue) == Some(Num(511)) && Flags(Num(511))
  {
    HexDigits();
    PrefixedIsReadAsZero("0x1ff");
  }

  lemma HexDigits()
    ensures LiteralValue("0x1ff") == 511
  {
    var digits := "0x1ff"[2..];
    assert digits == "1ff" && digits[1..] == "ff" && digits[2..] == "f";
    assert ValueIn("f", 16, 31) == ValueIn("", 16, 511);
    assert ValueIn("ff", 16, 1) == ValueIn("f", 16, 31);
    assert ValueIn("1ff", 16, 0) == ValueIn("ff", 16, 1);
    ReadingIsByPlace("1ff", 16, 0);
  }
}
