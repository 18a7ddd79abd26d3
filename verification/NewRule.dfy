/**
  The tool that registers a new rule: it splits two source files into sections, inserts a
  line into sorted blocks and writes the sections back.  A file is its list of lines.
*/
module NewRule {
  type Line = string

  datatype Sections = Sections(head1: seq<Line>, imports: seq<Line>, head2: seq<Line>, rules: seq<Line>,
                               tail: seq<Line>)

  /** The lines written back. */
  function Reprint(s: Sections): seq<Line> {
    s.head1 + s.imports + s.head2 + s.rules + s.tail
  }

  /** A line behind all others may go to the last section in use or to any section behind it. */
  lemma ReprintAppend(s: Sections, line: Line)
    ensures Reprint(s.(tail := s.tail + [line])) == Reprint(s) + [line]
    ensures s.tail == [] ==> Reprint(s.(rules := s.rules + [line])) == Reprint(s) + [line]
    ensures s.rules == s.tail == [] ==> Reprint(s.(head2 := s.head2 + [line])) == Reprint(s) + [line]
    ensures s.head2 == s.rules == s.tail == [] ==> Reprint(s.(imports := s.imports + [line])) == Reprint(s) + [line]
    ensures s.imports == s.head2 == s.rules == s.tail == []
      ==> Reprint(s.(head1 := s.head1 + [line])) == Reprint(s) + [line]
  {
  }

  /** White space and line terminators (sections 12.2 and 12.3 of ECMA-262, 14th edition). */
  predicate IsSpace(c: char) {
    || c as int in {9, 10, 11, 12, 13, 32, 0xA0, 0x1680, 0x2028, 0x2029, 0x202F, 0x205F, 0x3000, 0xFEFF}
    || 0x2000 <= c as int <= 0x200A
  }

  predicate AreSpaces(s: string) {
    forall i :: 0 <= i < |s| ==> IsSpace(s[i])
  }

  function TrimStart(s: string): string {
    if s != "" && IsSpace(s[0]) then TrimStart(s[1..]) else s
  }

  function TrimEnd(s: string): string {
    if s != "" && IsSpace(s[|s| - 1]) then TrimEnd(s[..|s| - 1]) else s
  }

  function Trim(s: string): string {
    TrimEnd(TrimStart(s))
  }

  lemma {:induction false} TrimStartTakesOff(s: string) returns (i: nat)
    ensures i <= |s| && TrimStart(s) == s[i..] && AreSpaces(s[..i]) && (i < |s| ==> !IsSpace(s[i]))
  {
    i := 0;
    if s != "" && IsSpace(s[0]) {
      var k := TrimStartTakesOff(s[1..]);
      i := k + 1;
      assert s[1..][k..] == s[i..];
      assert forall m :: 0 < m < i ==> s[m] == s[1..][..k][m - 1];
    }
  }

  lemma {:induction false} TrimEndTakesOff(s: string) returns (j: nat)
    ensures j <= |s| && TrimEnd(s) == s[..j] && AreSpaces(s[j..]) && (j > 0 ==> !IsSpace(s[j - 1]))
  {
    j := |s|;
    if s != "" && IsSpace(s[|s| - 1]) {
      var shorter := s[..|s| - 1];
      j := TrimEndTakesOff(shorter);
      assert shorter[..j] == s[..j];
      assert forall m :: 0 <= m < |s| - j - 1 ==> s[j..][m] == shorter[j..][m];
    }
  }

  /** What is trimmed is the text without all the spaces in front and behind. */
  lemma TrimTakesSpacesOff(s: string) returns (i: nat, j: nat)
    ensures i <= j <= |s| && Trim(s) == s[i..j] && AreSpaces(s[..i]) && AreSpaces(s[j..])
    ensures i < j ==> !IsSpace(s[i]) && !IsSpace(s[j - 1])
  {
    i := TrimStartTakesOff(s);
    var rest := s[i..];
    var k := TrimEndTakesOff(rest);
    j := i + k;
    assert rest[..k] == s[i..j] && rest[k..] == s[j..];
  }

  predicate Starts(line: Line, prefix: string) {
    prefix <= Trim(line)
  }

  predicate NoneStarts(lines: seq<Line>, prefix: string) {
    forall l :: l in lines ==> !Starts(l, prefix)
  }

  predicate AllStart(lines: seq<Line>, prefix: string) {
    forall l :: l in lines ==> Starts(l, prefix)
  }

  predicate NoneIs(lines: seq<Line>, text: string) {
    forall l :: l in lines ==> Trim(l) != text
  }

  const LIST_START := "return Arrays.asList("
  const LIST_END := ");"

  /**
    The sections of CheckList.java: up to the first import; the imports; up to and including
    the start of the list, which is not looked for in the line behind the imports; the list
    entries; the rest.
  */
  ghost predicate IsCheckListSplit(s: Sections, lines: seq<Line>) {
    Reprint(s) == lines && HasCheckListShape(s)
  }

  ghost predicate HasCheckListShape(s: Sections) {
    && NoneStarts(s.head1, "import") && AllStart(s.imports, "import")
    && (s.imports == [] ==> s.head2 == [])
    && (s.head2 != [] ==> !Starts(s.head2[0], "import"))
    && (s.head2 == [] ==> s.rules == s.tail == [])
    && (s.rules + s.tail != [] ==> |s.head2| > 1 && Trim(s.head2[|s.head2| - 1]) == LIST_START)
    && (|s.head2| > 1 ==> NoneIs(s.head2[1..|s.head2| - 1], LIST_START))
    && NoneIs(s.rules, LIST_END)
    && (s.tail != [] ==> Trim(s.tail[0]) == LIST_END)
  }

  /** The sections after some lines, and how far the parser has got. */
  ghost predicate InCheckList(state: nat, s: Sections) {
    && state <= 4 && HasCheckListShape(s)
    && (state == 0 <==> s.imports == []) && (state <= 1 <==> s.head2 == [])
    && (state == 2 ==> s.rules == [] && NoneIs(s.head2[1..], LIST_START))
    && (state >= 3 ==> |s.head2| > 1 && Trim(s.head2[|s.head2| - 1]) == LIST_START)
    && (state <= 3 <==> s.tail == [])
  }

  method ProcessHead1(s: Sections, line: Line) returns (state: nat, r: Sections)
    requires InCheckList(0, s)
    ensures InCheckList(state, r) && Reprint(r) == Reprint(s) + [line]
  {
    ReprintAppend(s, line);
    if Starts(line, "import") {
      state, r := 1, s.(imports := s.imports + [line]);
    } else {
      state, r := 0, s.(head1 := s.head1 + [line]);
    }
  }

  method ProcessImports(s: Sections, line: Line) returns (state: nat, r: Sections)
    requires InCheckList(1, s)
    ensures InCheckList(state, r) && Reprint(r) == Reprint(s) + [line]
  {
    ReprintAppend(s, line);
    if !Starts(line, "import") {
      state, r := 2, s.(head2 := s.head2 + [line]);
    } else {
      state, r := 1, s.(imports := s.imports + [line]);
    }
  }

  method ProcessHead2(s: Sections, line: Line) returns (state: nat, r: Sections)
    requires InCheckList(2, s)
    ensures InCheckList(state, r) && Reprint(r) == Reprint(s) + [line]
  {
    ReprintAppend(s, line);
    state := if Trim(line) == LIST_START then 3 else 2;
    r := s.(head2 := s.head2 + [line]);
    assert r.head2[1..] == s.head2[1..] + [line] && r.head2[1..|r.head2| - 1] == s.head2[1..];
  }

  method ProcessRule(s: Sections, line: Line) returns (state: nat, r: Sections)
    requires InCheckList(3, s)
    ensures InCheckList(state, r) && Reprint(r) == Reprint(s) + [line]
  {
    ReprintAppend(s, line);
    if Trim(line) == LIST_END {
      state, r := 4, s.(tail := s.tail + [line]);
    } else {
      state, r := 3, s.(rules := s.rules + [line]);
    }
  }

  method ParseCheckList(lines: seq<Line>) returns (s: Sections)
    ensures IsCheckListSplit(s, lines)
  {
    s := Sections([], [], [], [], []);
    var state: nat := 0;
    for i := 0 to |lines|
      invariant Reprint(s) == lines[..i] && InCheckList(state, s)
    {
      assert lines[..i + 1] == lines[..i] + [lines[i]];
      match state {
        case 0 => state, s := ProcessHead1(s, lines[i]);
        case 1 => state, s := ProcessImports(s, lines[i]);
        case 2 => state, s := ProcessHead2(s, lines[i]);
        case 3 => state, s := ProcessRule(s, lines[i]);
        case _ =>
          ReprintAppend(s, lines[i]);
          s := s.(tail := s.tail + [lines[i]]);
      }
    }
    assert lines[..|lines|] == lines;
  }

  /**
    The sections of the rule index: up to the first rule import; the imports; up to the first
    registration, which is not looked for in the line behind the imports; the registrations;
    the rest.
  */
  ghost predicate IsMainSplit(s: Sections, lines: seq<Line>) {
    Reprint(s) == lines && HasMainShape(s)
  }

  ghost predicate HasMainShape(s: Sections) {
    && NoneStarts(s.head1, "import { rule as")
    && (s.imports != [] ==> Starts(s.imports[0], "import { rule as") && AllStart(s.imports[1..], "import"))
    && (s.imports == [] ==> s.head2 == [])
    && (s.head2 != [] ==> !Starts(s.head2[0], "import") && NoneStarts(s.head2[1..], "rules["))
    && (s.head2 == [] ==> s.rules == [])
    && AllStart(s.rules, "rules[")
    && (s.rules == [] ==> s.tail == [])
    && (s.tail != [] ==> !Starts(s.tail[0], "rules["))
  }

  ghost predicate InMain(state: nat, s: Sections) {
    && state <= 4 && HasMainShape(s)
    && (state == 0 <==> s.imports == []) && (state <= 1 <==> s.head2 == [])
    && (state <= 2 <==> s.rules == []) && (state <= 3 <==> s.tail == [])
  }

  method ProcessMainHead1(s: Sections, line: Line) returns (state: nat, r: Sections)
    requires InMain(0, s)
    ensures InMain(state, r) && Reprint(r) == Reprint(s) + [line]
  {
    ReprintAppend(s, line);
    if Starts(line, "import { rule as") {
      state, r := 1, s.(imports := s.imports + [line]);
    } else {
      state, r := 0, s.(head1 := s.head1 + [line]);
    }
  }

  method ProcessMainImports(s: Sections, line: Line) returns (state: nat, r: Sections)
    requires InMain(1, s)
    ensures InMain(state, r) && Reprint(r) == Reprint(s) + [line]
  {
    ReprintAppend(s, line);
    if !Starts(line, "import") {
      state, r := 2, s.(head2 := s.head2 + [line]);
    } else {
      assert (s.imports + [line])[1..] == s.imports[1..] + [line];
      state, r := 1, s.(imports := s.imports + [line]);
    }
  }

  method ProcessMainHead2(s: Sections, line: Line) returns (state: nat, r: Sections)
    requires InMain(2, s)
    ensures InMain(state, r) && Reprint(r) == Reprint(s) + [line]
  {
    ReprintAppend(s, line);
    if Starts(line, "rules[") {
      state, r := 3, s.(rules := s.rules + [line]);
    } else {
      assert (s.head2 + [line])[1..] == s.head2[1..] + [line];
      state, r := 2, s.(head2 := s.head2 + [line]);
    }
  }

  method ProcessMainRule(s: Sections, line: Line) returns (state: nat, r: Sections)
    requires InMain(3, s)
    ensures InMain(state, r) && Reprint(r) == Reprint(s) + [line]
  {
    ReprintAppend(s, line);
    if !Starts(line, "rules[") {
      state, r := 4, s.(tail := s.tail + [line]);
    } else {
      state, r := 3, s.(rules := s.rules + [line]);
    }
  }

  method ParseMain(lines: seq<Line>) returns (s: Sections)
    ensures IsMainSplit(s, lines)
  {
    s := Sections([], [], [], [], []);
    var state: nat := 0;
    for i := 0 to |lines|
      invariant Reprint(s) == lines[..i] && InMain(state, s)
    {
      assert lines[..i + 1] == lines[..i] + [lines[i]];
      match state {
        case 0 => state, s := ProcessMainHead1(s, lines[i]);
        case 1 => state, s := ProcessMainImports(s, lines[i]);
        case 2 => state, s := ProcessMainHead2(s, lines[i]);
        case 3 => state, s := ProcessMainRule(s, lines[i]);
        case _ =>
          ReprintAppend(s, lines[i]);
          s := s.(tail := s.tail + [lines[i]]);
      }
    }
    assert lines[..|lines|] == lines;
  }

  // ----- a file has one split only -----

  lemma SameCut(p: seq<Line>, r: seq<Line>, q: seq<Line>, t: seq<Line>)
    requires p + r == q + t && |p| == |q|
    ensures p == q && r == t
  {
    assert p == (p + r)[..|p|] && q == (q + t)[..|q|];
    assert r == (p + r)[|p|..] && t == (q + t)[|q|..];
  }

  /** Behind the shorter cut comes a line of the longer one. */
  lemma LineBehindCut(p: seq<Line>, r: seq<Line>, q: seq<Line>, t: seq<Line>)
    requires p + r == q + t && |p| < |q|
    ensures r != [] && r[0] in q && (p != [] ==> r[0] in q[1..])
    ensures |p| > 1 ==> p[|p| - 1] in q[1..|q| - 1]
  {
    assert |p + r| == |q + t|;
    assert r[0] == (p + r)[|p|] && q[|p|] == (q + t)[|p|];
    assert p != [] ==> r[0] == q[1..][|p| - 1];
    assert |p| > 1 ==> p[|p| - 1] == (p + r)[|p| - 1] == (q + t)[|p| - 1] == q[1..|q| - 1][|p| - 2];
  }

  function BehindHead1(s: Sections): seq<Line> { s.imports + BehindImports(s) }
  function BehindImports(s: Sections): seq<Line> { s.head2 + BehindHead2(s) }
  function BehindHead2(s: Sections): seq<Line> { s.rules + s.tail }

  lemma ReprintNested(s: Sections)
    ensures Reprint(s) == s.head1 + BehindHead1(s)
  {
  }

  lemma CheckListHead1NotShorter(a: Sections, b: Sections)
    requires HasCheckListShape(a) && HasCheckListShape(b)
    requires a.head1 + BehindHead1(a) == b.head1 + BehindHead1(b)
    ensures |a.head1| >= |b.head1|
  {
    if |a.head1| < |b.head1| {
      LineBehindCut(a.head1, BehindHead1(a), b.head1, BehindHead1(b));
      assert false;
    }
  }

  lemma CheckListImportsNotShorter(a: Sections, b: Sections)
    requires HasCheckListShape(a) && HasCheckListShape(b)
    requires BehindHead1(a) == BehindHead1(b)
    ensures |a.imports| >= |b.imports|
  {
    if |a.imports| < |b.imports| {
      LineBehindCut(a.imports, BehindImports(a), b.imports, BehindImports(b));
      assert false;
    }
  }

  lemma CheckListHead2NotShorter(a: Sections, b: Sections)
    requires HasCheckListShape(a) && HasCheckListShape(b)
    requires BehindImports(a) == BehindImports(b)
    ensures |a.head2| >= |b.head2|
  {
    if |a.head2| < |b.head2| {
      LineBehindCut(a.head2, BehindHead2(a), b.head2, BehindHead2(b));
      assert false;
    }
  }

  lemma CheckListRulesNotShorter(a: Sections, b: Sections)
    requires HasCheckListShape(a) && HasCheckListShape(b)
    requires BehindHead2(a) == BehindHead2(b)
    ensures |a.rules| >= |b.rules|
  {
    if |a.rules| < |b.rules| {
      LineBehindCut(a.rules, a.tail, b.rules, b.tail);
      assert false;
    }
  }

  lemma CheckListSplitIsUnique(a: Sections, b: Sections, lines: seq<Line>)
    requires IsCheckListSplit(a, lines) && IsCheckListSplit(b, lines)
    ensures a == b
  {
    ReprintNested(a);
    ReprintNested(b);
    CheckListHead1NotShorter(a, b);
    CheckListHead1NotShorter(b, a);
    SameCut(a.head1, BehindHead1(a), b.head1, BehindHead1(b));
    CheckListImportsNotShorter(a, b);
    CheckListImportsNotShorter(b, a);
    SameCut(a.imports, BehindImports(a), b.imports, BehindImports(b));
    CheckListHead2NotShorter(a, b);
    CheckListHead2NotShorter(b, a);
    SameCut(a.head2, BehindHead2(a), b.head2, BehindHead2(b));
    CheckListRulesNotShorter(a, b);
    CheckListRulesNotShorter(b, a);
    SameCut(a.rules, a.tail, b.rules, b.tail);
  }

  lemma MainHead1NotShorter(a: Sections, b: Sections)
    requires HasMainShape(a) && HasMainShape(b)
    requires a.head1 + BehindHead1(a) == b.head1 + BehindHead1(b)
    ensures |a.head1| >= |b.head1|
  {
    if |a.head1| < |b.head1| {
      LineBehindCut(a.head1, BehindHead1(a), b.head1, BehindHead1(b));
      assert false;
    }
  }

  lemma MainImportsNotShorter(a: Sections, b: Sections)
    requires HasMainShape(a) && HasMainShape(b)
    requires BehindHead1(a) == BehindHead1(b)
    ensures |a.imports| >= |b.imports|
  {
    if |a.imports| < |b.imports| {
      LineBehindCut(a.imports, BehindImports(a), b.imports, BehindImports(b));
      assert false;
    }
  }

  lemma MainHead2NotShorter(a: Sections, b: Sections)
    requires HasMainShape(a) && HasMainShape(b)
    requires BehindImports(a) == BehindImports(b)
    ensures |a.head2| >= |b.head2|
  {
    if |a.head2| < |b.head2| {
      LineBehindCut(a.head2, BehindHead2(a), b.head2, BehindHead2(b));
      assert false;
    }
  }

  lemma MainRulesNotShorter(a: Sections, b: Sections)
    requires HasMainShape(a) && HasMainShape(b)
    requires BehindHead2(a) == BehindHead2(b)
    ensures |a.rules| >= |b.rules|
  {
    if |a.rules| < |b.rules| {
      LineBehindCut(a.rules, a.tail, b.rules, b.tail);
      assert false;
    }
  }

  lemma MainSplitIsUnique(a: Sections, b: Sections, lines: seq<Line>)
    requires IsMainSplit(a, lines) && IsMainSplit(b, lines)
    ensures a == b
  {
    ReprintNested(a);
    ReprintNested(b);
    MainHead1NotShorter(a, b);
    MainHead1NotShorter(b, a);
    SameCut(a.head1, BehindHead1(a), b.head1, BehindHead1(b));
    MainImportsNotShorter(a, b);
    MainImportsNotShorter(b, a);
    SameCut(a.imports, BehindImports(a), b.imports, BehindImports(b));
    MainHead2NotShorter(a, b);
    MainHead2NotShorter(b, a);
    SameCut(a.head2, BehindHead2(a), b.head2, BehindHead2(b));
    MainRulesNotShorter(a, b);
    MainRulesNotShorter(b, a);
    SameCut(a.rules, a.tail, b.rules, b.tail);
  }

  // ----- sorting lines by code units -----

  predicate Leq(a: Line, b: Line) {
    a == "" || (b != "" && (a[0] < b[0] || (a[0] == b[0] && Leq(a[1..], b[1..]))))
  }

  /** The lines are the same up to `k`, where the first one has a smaller code unit. */
  ghost predicate IsSmallerAt(a: Line, b: Line, k: nat) {
    k < |a| && k < |b| && a[k] < b[k] && forall i :: 0 <= i < k ==> a[i] == b[i]
  }

  /** A line comes before another if it is its beginning, or has a smaller code unit where they first differ. */
  ghost predicate ComesBefore(a: Line, b: Line) {
    a <= b || exists k: nat :: IsSmallerAt(a, b, k)
  }

  lemma {:induction false} LeqIsLexicographic(a: Line, b: Line)
    ensures Leq(a, b) <==> ComesBefore(a, b)
  {
    if a != "" && b != "" {
      if a[0] == b[0] {
        LeqIsLexicographic(a[1..], b[1..]);
        SameFirst(a, b);
      } else if a[0] < b[0] {
        assert IsSmallerAt(a, b, 0);
      }
    }
  }

  lemma SameFirst(a: Line, b: Line)
    requires a != "" && b != "" && a[0] == b[0]
    ensures ComesBefore(a, b) <==> ComesBefore(a[1..], b[1..])
  {
    var c, d := a[1..], b[1..];
    if k: nat :| IsSmallerAt(c, d, k) {
      assert IsSmallerAt(a, b, k + 1);
    }
    if k: nat :| IsSmallerAt(a, b, k) {
      assert IsSmallerAt(c, d, k - 1);
    }
  }

  lemma {:induction false} LeqTotal(a: Line, b: Line)
    ensures Leq(a, b) || Leq(b, a)
  {
    if a != "" && b != "" {
      LeqTotal(a[1..], b[1..]);
    }
  }

  lemma {:induction false} LeqTransitive(a: Line, b: Line, c: Line)
    requires Leq(a, b) && Leq(b, c)
    ensures Leq(a, c)
  {
    if a != "" && a[0] == b[0] == c[0] {
      LeqTransitive(a[1..], b[1..], c[1..]);
    }
  }

  predicate IsSorted(lines: seq<Line>) {
    forall i, j :: 0 <= i < j < |lines| ==> Leq(lines[i], lines[j])
  }

  function InsertSorted(line: Line, lines: seq<Line>): seq<Line> {
    if lines == [] then [line]
    else if Leq(line, lines[0]) then [line] + lines
    else [lines[0]] + InsertSorted(line, lines[1..])
  }

  /** The built-in sort, of which only `SortIsSorted` and `SortKeepsLines` are used. */
  function Sort(lines: seq<Line>): seq<Line> {
    if lines == [] then [] else InsertSorted(lines[0], Sort(lines[1..]))
  }

  lemma {:induction false} InsertKeepsLines(line: Line, lines: seq<Line>)
    ensures multiset(InsertSorted(line, lines)) == multiset{line} + multiset(lines)
  {
    if lines != [] && !Leq(line, lines[0]) {
      InsertKeepsLines(line, lines[1..]);
      assert lines == [lines[0]] + lines[1..];
    }
  }

  lemma {:induction false} SortKeepsLines(lines: seq<Line>)
    ensures multiset(Sort(lines)) == multiset(lines)
  {
    if lines != [] {
      SortKeepsLines(lines[1..]);
      InsertKeepsLines(lines[0], Sort(lines[1..]));
      assert lines == [lines[0]] + lines[1..];
    }
  }

  lemma {:induction false} InsertIsSorted(line: Line, lines: seq<Line>)
    requires IsSorted(lines)
    ensures IsSorted(InsertSorted(line, lines))
  {
    if lines != [] {
      if Leq(line, lines[0]) {
        forall j | 0 <= j < |lines|
          ensures Leq(line, lines[j])
        {
          if j > 0 {
            LeqTransitive(line, lines[0], lines[j]);
          }
        }
      } else {
        LeqTotal(line, lines[0]);
        InsertIsSorted(line, lines[1..]);
        InsertKeepsLines(line, lines[1..]);
        var rest := InsertSorted(line, lines[1..]);
        forall j | 0 <= j < |rest|
          ensures Leq(lines[0], rest[j])
        {
          assert rest[j] in multiset(rest);
          assert rest[j] == line || rest[j] in lines[1..];
        }
      }
    }
  }

  lemma {:induction false} SortIsSorted(lines: seq<Line>)
    ensures IsSorted(Sort(lines))
  {
    if lines != [] {
      SortIsSorted(lines[1..]);
      InsertIsSorted(lines[0], Sort(lines[1..]));
    }
  }

  // ----- the rule index -----

  /** One import and one registration are added, both blocks are sorted, and everything else stays. */
  method UpdateMain(lines: seq<Line>, importLine: Line, ruleLine: Line)
    returns (written: seq<Line>, before: Sections, after: Sections)
    ensures IsMainSplit(before, lines) && written == Reprint(after)
    ensures after.head1 == before.head1 && after.head2 == before.head2 && after.tail == before.tail
    ensures IsSorted(after.imports) && multiset(after.imports) == multiset(before.imports) + multiset{importLine}
    ensures IsSorted(after.rules) && multiset(after.rules) == multiset(before.rules) + multiset{ruleLine}
    ensures multiset(written) == multiset(lines) + multiset{importLine, ruleLine}
    ensures before.head2 != [] && Starts(importLine, "import") && Starts(ruleLine, "rules[") ==>
      (IsMainSplit(after, written) <==> Starts(after.imports[0], "import { rule as"))
  {
    var s := ParseMain(lines);
    before := s;
    var imports := Sort(s.imports + [importLine]);
    var rules := Sort(s.rules + [ruleLine]);
    SortKeepsLines(s.imports + [importLine]);
    SortIsSorted(s.imports + [importLine]);
    SortKeepsLines(s.rules + [ruleLine]);
    SortIsSorted(s.rules + [ruleLine]);
    written := s.head1 + imports + s.head2 + rules + s.tail;
    after := Sections(s.head1, imports, s.head2, rules, s.tail);
    TwoMoreLines(before, after, importLine, ruleLine);
    if before.head2 != [] && Starts(importLine, "import") && Starts(ruleLine, "rules[") {
      WrittenMainParsesBack(before, after, importLine, ruleLine);
    }
  }

  lemma SameLinesStart(before: seq<Line>, after: seq<Line>, line: Line, prefix: string)
    requires multiset(after) == multiset(before) + multiset{line} && AllStart(before, prefix) && Starts(line, prefix)
    ensures after != [] && AllStart(after, prefix)
  {
    assert line in multiset(after);
    forall l | l in after
      ensures Starts(l, prefix)
    {
      assert l in multiset(after);
    }
  }

  /** The sections written are those that a second run finds, if the first import still is one of a rule. */
  lemma WrittenMainParsesBack(before: Sections, after: Sections, importLine: Line, ruleLine: Line)
    requires HasMainShape(before) && before.head2 != [] && Starts(importLine, "import") && Starts(ruleLine, "rules[")
    requires after.head1 == before.head1 && after.head2 == before.head2 && after.tail == before.tail
    requires multiset(after.imports) == multiset(before.imports) + multiset{importLine}
    requires multiset(after.rules) == multiset(before.rules) + multiset{ruleLine}
    ensures after.imports != [] && (HasMainShape(after) <==> Starts(after.imports[0], "import { rule as"))
  {
    assert AllStart(before.imports, "import") by {
      assert "import" <= "import { rule as";
      assert forall l :: l in before.imports ==> l == before.imports[0] || l in before.imports[1..];
    }
    SameLinesStart(before.imports, after.imports, importLine, "import");
    SameLinesStart(before.rules, after.rules, ruleLine, "rules[");
  }

  lemma TwoMoreLines(before: Sections, after: Sections, importLine: Line, ruleLine: Line)
    requires after.head1 == before.head1 && after.head2 == before.head2 && after.tail == before.tail
    requires multiset(after.imports) == multiset(before.imports) + multiset{importLine}
    requires multiset(after.rules) == multiset(before.rules) + multiset{ruleLine}
    ensures multiset(Reprint(after)) == multiset(Reprint(before)) + multiset{importLine, ruleLine}
  {
    LinesOf(before);
    LinesOf(after);
  }

  lemma LinesOf(s: Sections)
    ensures multiset(Reprint(s)) == multiset(s.head1) + multiset(s.imports) + multiset(s.head2) + multiset(s.rules)
      + multiset(s.tail)
  {
  }

  // ----- the list of checks -----

  predicate EndsWithComma(line: Line) {
    line != "" && line[|line| - 1] == ','
  }

  /** A Java list: every entry but the last ends in a comma. */
  predicate IsCommaList(rules: seq<Line>) {
    forall i :: 0 <= i < |rules| - 1 ==> EndsWithComma(rules[i])
  }

  function WithoutLast(line: Line): Line {
    if line == "" then "" else line[..|line| - 1]
  }

  /** The entries of a list, commas removed. */
  function Entries(rules: seq<Line>): seq<Line> {
    if rules == [] then []
    else if |rules| == 1 then rules
    else [WithoutLast(rules[0])] + Entries(rules[1..])
  }

  function WithCommas(entries: seq<Line>): seq<Line> {
    if entries == [] then [] else [entries[0] + ","] + WithCommas(entries[1..])
  }

  function WithoutCommas(lines: seq<Line>): seq<Line> {
    if lines == [] then [] else [WithoutLast(lines[0])] + WithoutCommas(lines[1..])
  }

  lemma {:induction false} CommasComeAndGo(entries: seq<Line>)
    ensures WithoutCommas(WithCommas(entries)) == entries
  {
    if entries != [] {
      CommasComeAndGo(entries[1..]);
      assert WithoutLast(entries[0] + ",") == entries[0];
    }
  }

  lemma {:induction false} CommasGoAndCome(lines: seq<Line>)
    requires forall i :: 0 <= i < |lines| ==> EndsWithComma(lines[i])
    ensures WithCommas(WithoutCommas(lines)) == lines
  {
    if lines != [] {
      CommasGoAndCome(lines[1..]);
      assert EndsWithComma(lines[0]) && WithoutLast(lines[0]) + "," == lines[0];
    }
  }

  lemma {:induction false} InsertWithoutCommas(line: Line, lines: seq<Line>)
    ensures multiset(WithoutCommas(InsertSorted(line, lines))) == multiset{WithoutLast(line)}
      + multiset(WithoutCommas(lines))
  {
    if lines != [] {
      var rest := InsertSorted(line, lines[1..]);
      InsertWithoutCommas(line, lines[1..]);
      if Leq(line, lines[0]) {
        assert ([line] + lines)[1..] == lines;
      } else {
        assert ([lines[0]] + rest)[1..] == rest;
      }
    }
  }

  lemma {:induction false} SortWithoutCommas(lines: seq<Line>)
    ensures multiset(WithoutCommas(Sort(lines))) == multiset(WithoutCommas(lines))
  {
    if lines != [] {
      SortWithoutCommas(lines[1..]);
      InsertWithoutCommas(lines[0], Sort(lines[1..]));
    }
  }

  lemma {:induction false} AppendWithCommas(a: seq<Line>, entry: Line)
    ensures WithCommas(a + [entry]) == WithCommas(a) + [entry + ","]
  {
    if a != [] {
      assert (a + [entry])[1..] == a[1..] + [entry];
      AppendWithCommas(a[1..], entry);
    }
  }

  /** Completing the last entry with a comma. */
  lemma {:induction false} CloseList(rules: seq<Line>)
    requires IsCommaList(rules) && rules != []
    ensures rules[|rules| - 1 := rules[|rules| - 1] + ","] == WithCommas(Entries(rules))
  {
    if |rules| > 1 {
      CloseList(rules[1..]);
      assert rules[0] == WithoutLast(rules[0]) + ",";
    }
  }

  /** Removing the comma of the last entry. */
  lemma {:induction false} OpenList(lines: seq<Line>)
    requires lines != []
    ensures Entries(lines[|lines| - 1 := WithoutLast(lines[|lines| - 1])]) == WithoutCommas(lines)
  {
    var rules := lines[|lines| - 1 := WithoutLast(lines[|lines| - 1])];
    if |lines| > 1 {
      OpenList(lines[1..]);
      assert rules[1..] == lines[1..][|lines| - 2 := WithoutLast(lines[|lines| - 1])];
    } else {
      assert lines == [lines[0]];
    }
  }

  lemma {:induction false} AllWithCommas(entries: seq<Line>)
    ensures forall l :: l in WithCommas(entries) ==> EndsWithComma(l)
  {
    if entries != [] {
      AllWithCommas(entries[1..]);
    }
  }

  /** The list stays a comma list, and has exactly one more entry; an empty list gets its first. */
  method UpdateCheckList(lines: seq<Line>, entry: Line) returns (written: seq<Line>, before: Sections, after: Sections)
    ensures IsCheckListSplit(before, lines) && written == Reprint(after) && after == before.(rules := after.rules)
    ensures IsCommaList(before.rules) ==>
      && IsCommaList(after.rules) && multiset(Entries(after.rules)) == multiset(Entries(before.rules)) + multiset{entry}
      && IsSorted(WithCommas(Entries(after.rules)))
    ensures before.tail != [] ==> (IsCheckListSplit(after, written) <==> NoneIs(after.rules, LIST_END))
  {
    var s := ParseCheckList(lines);
    before := s;
    var rules := s.rules;
    if |rules| > 0 {
      rules := rules[|rules| - 1 := rules[|rules| - 1] + ","];
    }
    rules := rules + [entry + ","];
    ghost var closed := rules;
    rules := Sort(rules);
    SortKeepsLines(closed);
    assert |multiset(closed)| == |multiset(rules)|;
    ghost var sorted := rules;
    rules := rules[|rules| - 1 := WithoutLast(rules[|rules| - 1])];
    written := s.head1 + s.imports + s.head2 + rules + s.tail;
    after := s.(rules := rules);
    if IsCommaList(s.rules) {
      ListIsUpdated(s.rules, entry, closed, sorted, rules);
    }
  }

  lemma ListIsUpdated(was: seq<Line>, entry: Line, closed: seq<Line>, sorted: seq<Line>, rules: seq<Line>)
    requires IsCommaList(was) && sorted == Sort(closed) && sorted != []
    requires closed == (if was == [] then [] else was[|was| - 1 := was[|was| - 1] + ","]) + [entry + ","]
    requires rules == sorted[|sorted| - 1 := WithoutLast(sorted[|sorted| - 1])]
    ensures IsCommaList(rules) && multiset(Entries(rules)) == multiset(Entries(was)) + multiset{entry}
    ensures IsSorted(WithCommas(Entries(rules)))
  {
    var entries := Entries(was) + [entry];
    assert closed == WithCommas(entries) by {
      if was != [] {
        CloseList(was);
      }
      AppendWithCommas(Entries(was), entry);
    }
    SortedEntries(entries, closed, sorted);
    OpenList(sorted);
    CommasGoAndCome(sorted);
    SortIsSorted(closed);
  }

  lemma SortedEntries(entries: seq<Line>, closed: seq<Line>, sorted: seq<Line>)
    requires closed == WithCommas(entries) && sorted == Sort(closed)
    ensures multiset(WithoutCommas(sorted)) == multiset(entries)
    ensures forall i :: 0 <= i < |sorted| ==> EndsWithComma(sorted[i])
  {
    CommasComeAndGo(entries);
    SortWithoutCommas(closed);
    AllWithCommas(entries);
    SortKeepsLines(closed);
    forall i | 0 <= i < |sorted|
      ensures EndsWithComma(sorted[i])
    {
      assert sorted[i] in multiset(sorted);
    }
  }
}
