/** MarkdownFixer._format_lint_results (mdfm_ollama.py:178-201): the lint
    issues grouped by rule number, in the order rules are first seen, each
    group a header with its size and at most three example lines. */
module LintReport {
  import opened Strings
  import opened LintParse

  const NoIssues: string := "발견된 lint 문제가 없습니다."

  // ---------------------------------------------------------------------------
  // Group keys

  /** The rule number: the text before the first '/', or the whole rule. */
  function RuleKey(rule: string): (k: string)
    ensures StartsWith(rule, k) && '/' !in k
    ensures |k| == |rule| || rule[|k|] == '/'
  {
    if Contains(rule, "/") then
      var i := Find(rule, "/").value;
      SplitHead(rule, "/");
      assert forall j :: 0 <= j < i ==> rule[j] != '/' by {
        forall j | 0 <= j < i ensures rule[j] != '/' {
          assert !OccursAt(rule, "/", j);
          assert rule[j..j + 1] == [rule[j]];
        }
      }
      assert rule[i..i + 1] == "/";
      Split(rule, "/")[0]
    else
      assert forall j :: 0 <= j < |rule| ==> rule[j] != '/' by {
        forall j | 0 <= j < |rule| ensures rule[j] != '/' {
          assert !OccursAt(rule, "/", j);
          assert rule[j..j + 1] == [rule[j]];
        }
      }
      rule
  }

  function KeyOf(i: LintIssue): string {
    RuleKey(i.rule)
  }

  /** The issues whose rule number is key, in input order. */
  function Filter(issues: seq<LintIssue>, key: string): (r: seq<LintIssue>)
    ensures |r| <= |issues|
    ensures forall i :: i in r <==> i in issues && KeyOf(i) == key
    decreases |issues|
  {
    if issues == [] then []
    else
      var last := issues[|issues| - 1];
      var init := issues[..|issues| - 1];
      assert issues == init + [last];
      Filter(init, key) + (if KeyOf(last) == key then [last] else [])
  }

  /** Position of the first issue with rule number key, or |issues|. */
  function FirstIndex(issues: seq<LintIssue>, key: string): (p: nat)
    ensures p <= |issues|
    ensures p < |issues| ==> KeyOf(issues[p]) == key
    ensures forall j :: 0 <= j < p ==> KeyOf(issues[j]) != key
    decreases |issues|
  {
    if issues == [] || KeyOf(issues[0]) == key then 0
    else 1 + FirstIndex(issues[1..], key)
  }

  predicate HasKey(issues: seq<LintIssue>, key: string) {
    exists j :: 0 <= j < |issues| && KeyOf(issues[j]) == key
  }

  lemma FirstIndexAppend(issues: seq<LintIssue>, x: LintIssue, key: string)
    ensures HasKey(issues, key) ==> FirstIndex(issues + [x], key) == FirstIndex(issues, key)
    ensures !HasKey(issues, key) && KeyOf(x) == key ==> FirstIndex(issues + [x], key) == |issues|
  {
    var ext := issues + [x];
    var p := FirstIndex(issues, key);
    if HasKey(issues, key) {
      assert p < |issues|;
      assert ext[p] == issues[p];
      forall j | 0 <= j < p ensures KeyOf(ext[j]) != key {
        assert ext[j] == issues[j];
      }
    } else if KeyOf(x) == key {
      assert ext[|issues|] == x;
      forall j | 0 <= j < |issues| ensures KeyOf(ext[j]) != key {
        assert ext[j] == issues[j];
      }
    }
  }

  // ---------------------------------------------------------------------------
  // Grouping into an insertion-ordered dictionary (mdfm_ollama.py:184-189)

  datatype Group = Group(key: string, issues: seq<LintIssue>)

  /** Where key sits among the groups, if it does. */
  function GroupIndex(groups: seq<Group>, key: string): (p: Option<nat>)
    ensures p.Some? ==> p.value < |groups| && groups[p.value].key == key
    ensures p.None? ==> forall q :: 0 <= q < |groups| ==> groups[q].key != key
    decreases |groups|
  {
    if groups == [] then None
    else if groups[0].key == key then Some(0)
    else match GroupIndex(groups[1..], key)
      case None => None
      case Some(q) => Some(q + 1)
  }

  /** One step of the loop: append to the issue's group, opening it if new. */
  function AddIssue(groups: seq<Group>, x: LintIssue): (r: seq<Group>)
    ensures GroupIndex(groups, KeyOf(x)).Some? ==> |r| == |groups|
    ensures GroupIndex(groups, KeyOf(x)).None? ==> |r| == |groups| + 1 && r[|groups|] == Group(KeyOf(x), [x])
    ensures forall q :: 0 <= q < |groups| ==> r[q].key == groups[q].key
    ensures forall q :: 0 <= q < |groups| ==>
      r[q].issues == groups[q].issues + (if GroupIndex(groups, KeyOf(x)) == Some(q) then [x] else [])
  {
    match GroupIndex(groups, KeyOf(x))
    case None => groups + [Group(KeyOf(x), [x])]
    case Some(p) => groups[p := Group(KeyOf(x), groups[p].issues + [x])]
  }

  function Groups(issues: seq<LintIssue>): seq<Group>
    decreases |issues|
  {
    if issues == [] then [] else AddIssue(Groups(issues[..|issues| - 1]), issues[|issues| - 1])
  }

  predicate DistinctKeys(groups: seq<Group>) {
    forall p, q :: 0 <= p < q < |groups| ==> groups[p].key != groups[q].key
  }

  /** What the grouping promises, relative to the input: each group holds
      exactly the issues with its rule number, every rule number present has a
      group, no rule number has two, and groups are ordered by where their rule
      number first occurs. */
  ghost predicate GroupsOf(groups: seq<Group>, issues: seq<LintIssue>) {
    && DistinctKeys(groups)
    && (forall p :: 0 <= p < |groups| ==> groups[p].issues == Filter(issues, groups[p].key))
    && (forall p :: 0 <= p < |groups| ==> HasKey(issues, groups[p].key))
    && (forall j :: 0 <= j < |issues| ==> GroupIndex(groups, KeyOf(issues[j])).Some?)
    && (forall p, q :: 0 <= p < q < |groups| ==>
          FirstIndex(issues, groups[p].key) < FirstIndex(issues, groups[q].key))
  }

  lemma GroupIndexOfDistinct(groups: seq<Group>, p: nat)
    requires DistinctKeys(groups) && p < |groups|
    ensures GroupIndex(groups, groups[p].key) == Some(p)
  {
  }

  lemma AddKeepsDistinct(groups: seq<Group>, x: LintIssue)
    requires DistinctKeys(groups)
    ensures DistinctKeys(AddIssue(groups, x))
  {
  }

  lemma FilterSnoc(issues: seq<LintIssue>, x: LintIssue, key: string)
    ensures Filter(issues + [x], key) == Filter(issues, key) + (if KeyOf(x) == key then [x] else [])
  {
    assert (issues + [x])[..|issues|] == issues;
  }

  lemma FilterNone(issues: seq<LintIssue>, key: string)
    requires forall j :: 0 <= j < |issues| ==> KeyOf(issues[j]) != key
    ensures Filter(issues, key) == []
  {
  }

  lemma AddKeepsFilter(groups: seq<Group>, issues: seq<LintIssue>, x: LintIssue, p: nat)
    requires DistinctKeys(groups)
    requires forall j :: 0 <= j < |issues| ==> GroupIndex(groups, KeyOf(issues[j])).Some?
    requires forall p :: 0 <= p < |groups| ==> groups[p].issues == Filter(issues, groups[p].key)
    requires p < |AddIssue(groups, x)|
    ensures AddIssue(groups, x)[p].issues == Filter(issues + [x], AddIssue(groups, x)[p].key)
  {
    var r := AddIssue(groups, x);
    FilterSnoc(issues, x, r[p].key);
    if p < |groups| {
      GroupIndexOfDistinct(groups, p);
    } else {
      FilterNone(issues, KeyOf(x));
    }
  }

  lemma AddKeepsFilters(groups: seq<Group>, issues: seq<LintIssue>, x: LintIssue)
    requires DistinctKeys(groups)
    requires forall j :: 0 <= j < |issues| ==> GroupIndex(groups, KeyOf(issues[j])).Some?
    requires forall p :: 0 <= p < |groups| ==> groups[p].issues == Filter(issues, groups[p].key)
    ensures forall p :: 0 <= p < |AddIssue(groups, x)| ==>
      AddIssue(groups, x)[p].issues == Filter(issues + [x], AddIssue(groups, x)[p].key)
  {
    forall p | 0 <= p < |AddIssue(groups, x)|
      ensures AddIssue(groups, x)[p].issues == Filter(issues + [x], AddIssue(groups, x)[p].key)
    {
      AddKeepsFilter(groups, issues, x, p);
    }
  }

  lemma AddKeepsPresence(groups: seq<Group>, issues: seq<LintIssue>, x: LintIssue)
    requires forall p :: 0 <= p < |groups| ==> HasKey(issues, groups[p].key)
    ensures forall p :: 0 <= p < |AddIssue(groups, x)| ==> HasKey(issues + [x], AddIssue(groups, x)[p].key)
  {
    var r := AddIssue(groups, x);
    var ext := issues + [x];
    forall p | 0 <= p < |r| ensures HasKey(ext, r[p].key) {
      if p < |groups| {
        var j :| 0 <= j < |issues| && KeyOf(issues[j]) == groups[p].key;
        assert ext[j] == issues[j];
      } else {
        assert ext[|issues|] == x;
      }
    }
  }

  lemma AddKeepsCover(groups: seq<Group>, issues: seq<LintIssue>, x: LintIssue)
    requires forall j :: 0 <= j < |issues| ==> GroupIndex(groups, KeyOf(issues[j])).Some?
    ensures forall j :: 0 <= j < |issues + [x]| ==> GroupIndex(AddIssue(groups, x), KeyOf((issues + [x])[j])).Some?
  {
    var r := AddIssue(groups, x);
    var ext := issues + [x];
    var k := KeyOf(x);
    forall j | 0 <= j < |ext| ensures GroupIndex(r, KeyOf(ext[j])).Some? {
      if j < |issues| {
        assert ext[j] == issues[j];
        var p := GroupIndex(groups, KeyOf(issues[j])).value;
        GroupIndexFinds(r, p);
      } else if GroupIndex(groups, k).Some? {
        GroupIndexFinds(r, GroupIndex(groups, k).value);
      } else {
        GroupIndexFinds(r, |groups|);
      }
    }
  }

  lemma AddKeepsOrder(groups: seq<Group>, issues: seq<LintIssue>, x: LintIssue)
    requires forall p :: 0 <= p < |groups| ==> HasKey(issues, groups[p].key)
    requires forall j :: 0 <= j < |issues| ==> GroupIndex(groups, KeyOf(issues[j])).Some?
    requires forall p, q :: 0 <= p < q < |groups| ==>
      FirstIndex(issues, groups[p].key) < FirstIndex(issues, groups[q].key)
    ensures forall p, q :: 0 <= p < q < |AddIssue(groups, x)| ==>
      FirstIndex(issues + [x], AddIssue(groups, x)[p].key) < FirstIndex(issues + [x], AddIssue(groups, x)[q].key)
  {
    var r := AddIssue(groups, x);
    var ext := issues + [x];
    OldGroupsKeepIndex(groups, issues, x);
    if GroupIndex(groups, KeyOf(x)).None? {
      NewGroupIndex(groups, issues, x);
    }
  }

  /** Appending an issue does not move where an existing group's rule first occurs. */
  lemma OldGroupsKeepIndex(groups: seq<Group>, issues: seq<LintIssue>, x: LintIssue)
    requires forall p :: 0 <= p < |groups| ==> HasKey(issues, groups[p].key)
    ensures forall p :: 0 <= p < |groups| ==>
      FirstIndex(issues + [x], AddIssue(groups, x)[p].key) == FirstIndex(issues, groups[p].key) < |issues|
  {
    var r := AddIssue(groups, x);
    forall p | 0 <= p < |groups|
      ensures FirstIndex(issues + [x], r[p].key) == FirstIndex(issues, groups[p].key) < |issues|
    {
      FirstIndexAppend(issues, x, groups[p].key);
    }
  }

  /** A group opened by the appended issue first occurs at its position. */
  lemma NewGroupIndex(groups: seq<Group>, issues: seq<LintIssue>, x: LintIssue)
    requires forall j :: 0 <= j < |issues| ==> GroupIndex(groups, KeyOf(issues[j])).Some?
    requires GroupIndex(groups, KeyOf(x)).None?
    ensures FirstIndex(issues + [x], KeyOf(x)) == |issues|
  {
    assert !HasKey(issues, KeyOf(x));
    FirstIndexAppend(issues, x, KeyOf(x));
  }

  lemma AddIssueKeeps(groups: seq<Group>, issues: seq<LintIssue>, x: LintIssue)
    requires GroupsOf(groups, issues)
    ensures GroupsOf(AddIssue(groups, x), issues + [x])
  {
    AddKeepsDistinct(groups, x);
    AddKeepsFilters(groups, issues, x);
    AddKeepsPresence(groups, issues, x);
    AddKeepsCover(groups, issues, x);
    AddKeepsOrder(groups, issues, x);
  }

  lemma GroupIndexFinds(groups: seq<Group>, p: nat)
    requires p < |groups|
    ensures GroupIndex(groups, groups[p].key).Some?
  {
  }

  lemma {:induction false} GroupsCorrect(issues: seq<LintIssue>)
    ensures GroupsOf(Groups(issues), issues)
    decreases |issues|
  {
    if issues != [] {
      var n := |issues| - 1;
      var init, x := issues[..n], issues[n];
      assert issues == init + [x];
      var gs := Groups(init);
      assert Groups(issues) == AddIssue(gs, x);
      GroupsCorrect(init);
      AddIssueKeeps(gs, init, x);
    }
  }

  function TotalSize(groups: seq<Group>): nat
    decreases |groups|
  {
    if groups == [] then 0 else TotalSize(groups[..|groups| - 1]) + |groups[|groups| - 1].issues|
  }

  lemma {:induction false} TotalSizeUpdate(groups: seq<Group>, p: nat, g: Group)
    requires p < |groups|
    ensures TotalSize(groups[p := g]) == TotalSize(groups) - |groups[p].issues| + |g.issues|
    decreases |groups|
  {
    var n := |groups| - 1;
    if p < n {
      assert groups[p := g][..n] == groups[..n][p := g];
      TotalSizeUpdate(groups[..n], p, g);
    } else {
      assert groups[p := g][..n] == groups[..n];
    }
  }

  /** Every issue is counted in exactly one group. */
  lemma {:induction false} GroupSizesSum(issues: seq<LintIssue>)
    ensures TotalSize(Groups(issues)) == |issues|
    decreases |issues|
  {
    if issues != [] {
      var n := |issues| - 1;
      var init, x := issues[..n], issues[n];
      var gs := Groups(init);
      assert Groups(issues) == AddIssue(gs, x);
      GroupSizesSum(init);
      match GroupIndex(gs, KeyOf(x))
      case None =>
        assert (gs + [Group(KeyOf(x), [x])])[..|gs|] == gs;
      case Some(p) =>
        TotalSizeUpdate(gs, p, Group(KeyOf(x), gs[p].issues + [x]));
    }
  }

  // ---------------------------------------------------------------------------
  // Text (mdfm_ollama.py:191-201)

  const ShownPerRule: nat := 3

  function Header(g: Group): string {
    "\n" + g.key + " (" + NatToString(|g.issues|) + "개):"
  }

  function Example(i: LintIssue): string {
    "  - 라인 " + NatToString(i.line) + ": " + i.description
  }

  const MoreLead: string := "  - ... 그 외 "

  function More(hidden: nat): string {
    MoreLead + NatToString(hidden) + "개 더"
  }

  /** The line that counts the examples not shown. */
  predicate IsMoreLine(line: string) {
    StartsWith(line, MoreLead)
  }

  function Examples(issues: seq<LintIssue>): (r: seq<string>)
    ensures |r| == |issues|
    ensures forall j :: 0 <= j < |issues| ==> r[j] == Example(issues[j])
    decreases |issues|
  {
    if issues == [] then [] else [Example(issues[0])] + Examples(issues[1..])
  }

  function Min(a: nat, b: nat): nat {
    if a <= b then a else b
  }

  lemma DiffersFromMoreLead(line: string, i: nat)
    requires i < |line| && i < |MoreLead| && line[i] != MoreLead[i]
    ensures !IsMoreLine(line)
  {
    if |MoreLead| <= |line| {
      assert line[..|MoreLead|][i] == line[i];
    }
  }

  /** Only a header line starts with a newline. */
  predicate IsHeaderLine(line: string) {
    line != [] && line[0] == '\n'
  }

  /** A group's lines: its header, its first three examples, and a line
      counting the rest exactly when there is a rest. */
  function GroupLines(g: Group): (r: seq<string>)
    ensures |r| == 1 + Min(|g.issues|, ShownPerRule) + (if |g.issues| > ShownPerRule then 1 else 0)
    ensures r[0] == Header(g)
    ensures forall j :: 0 <= j < Min(|g.issues|, ShownPerRule) ==> r[1 + j] == Example(g.issues[j])
    ensures |g.issues| > ShownPerRule ==> r[|r| - 1] == More(|g.issues| - ShownPerRule)
    ensures forall j :: 0 <= j < |r| ==> (IsMoreLine(r[j]) <==> |g.issues| > ShownPerRule && j == |r| - 1)
    ensures forall j :: 0 <= j < |r| ==> (IsHeaderLine(r[j]) <==> j == 0)
  {
    var shown := g.issues[..Min(|g.issues|, ShownPerRule)];
    var more := if |g.issues| > ShownPerRule then [More(|g.issues| - ShownPerRule)] else [];
    var r := [Header(g)] + Examples(shown) + more;
    LineShape(g, shown, more, r);
    LineKinds(g, shown, more, r);
    r
  }

  /** Where the header, the examples and the count of the rest sit. */
  lemma LineShape(g: Group, shown: seq<LintIssue>, more: seq<string>, r: seq<string>)
    requires shown == g.issues[..Min(|g.issues|, ShownPerRule)]
    requires more == if |g.issues| > ShownPerRule then [More(|g.issues| - ShownPerRule)] else []
    requires r == [Header(g)] + Examples(shown) + more
    ensures |r| == 1 + Min(|g.issues|, ShownPerRule) + (if |g.issues| > ShownPerRule then 1 else 0)
    ensures r[0] == Header(g)
    ensures forall j :: 0 <= j < Min(|g.issues|, ShownPerRule) ==> r[1 + j] == Example(g.issues[j])
    ensures |g.issues| > ShownPerRule ==> r[|r| - 1] == More(|g.issues| - ShownPerRule)
  {
    forall j | 0 <= j < |shown| ensures r[1 + j] == Example(g.issues[j]) {
      assert r[1 + j] == Examples(shown)[j];
    }
  }

  /** Which of a group's lines is the header and which counts the rest. */
  lemma LineKinds(g: Group, shown: seq<LintIssue>, more: seq<string>, r: seq<string>)
    requires shown == g.issues[..Min(|g.issues|, ShownPerRule)]
    requires more == if |g.issues| > ShownPerRule then [More(|g.issues| - ShownPerRule)] else []
    requires r == [Header(g)] + Examples(shown) + more
    ensures forall j :: 0 <= j < |r| ==> (IsMoreLine(r[j]) <==> |g.issues| > ShownPerRule && j == |r| - 1)
    ensures forall j :: 0 <= j < |r| ==> (IsHeaderLine(r[j]) <==> j == 0)
  {
    forall j | 0 <= j < |r|
      ensures (IsMoreLine(r[j]) <==> |g.issues| > ShownPerRule && j == |r| - 1)
      ensures (IsHeaderLine(r[j]) <==> j == 0)
    {
      if j == 0 {
        DiffersFromMoreLead(r[j], 0);
      } else if j <= |shown| {
        ExampleLine(shown[j - 1], r[j]);
      } else {
        MoreLine(|g.issues| - ShownPerRule, r[j]);
      }
    }
  }

  lemma ExampleLine(i: LintIssue, line: string)
    requires line == Example(i)
    ensures !IsMoreLine(line) && !IsHeaderLine(line)
  {
    assert line[4] == '라' && line[0] == ' ';
    DiffersFromMoreLead(line, 4);
  }

  lemma MoreLine(hidden: nat, line: string)
    requires line == More(hidden)
    ensures IsMoreLine(line) && !IsHeaderLine(line)
  {
    assert line[..|MoreLead|] == MoreLead;
  }

  /** The lines of all groups, in group order: one "... 그 외 k개 더" line
      for each group holding more issues than are shown, and no other. */
  function GroupedLines(groups: seq<Group>): (r: seq<string>)
    ensures |r| >= |groups|
    ensures MoreLines(r) == Overfull(groups)
    decreases |groups|
  {
    if groups == [] then []
    else
      var first := GroupLines(groups[0]);
      var rest := GroupedLines(groups[1..]);
      MoreLinesAppend(first, rest);
      MoreLinesOfGroup(groups[0]);
      first + rest
  }

  /** How many lines are "... 그 외 k개 더" lines. */
  function MoreLines(lines: seq<string>): nat
    decreases |lines|
  {
    if lines == [] then 0 else (if IsMoreLine(lines[0]) then 1 else 0) + MoreLines(lines[1..])
  }

  /** How many groups hold more issues than a group shows. */
  function Overfull(groups: seq<Group>): nat
    decreases |groups|
  {
    if groups == [] then 0
    else (if |groups[0].issues| > ShownPerRule then 1 else 0) + Overfull(groups[1..])
  }

  lemma {:induction false} MoreLinesAppend(a: seq<string>, b: seq<string>)
    ensures MoreLines(a + b) == MoreLines(a) + MoreLines(b)
    decreases |a|
  {
    if a != [] {
      assert (a + b)[1..] == a[1..] + b;
      MoreLinesAppend(a[1..], b);
    } else {
      assert a + b == b;
    }
  }

  /** A group's lines hold one "more" line exactly when it is overfull. */
  lemma MoreLinesOfGroup(g: Group)
    ensures MoreLines(GroupLines(g)) == if |g.issues| > ShownPerRule then 1 else 0
  {
    MoreLinesAtEnd(GroupLines(g), |g.issues| > ShownPerRule);
  }

  /** Lines whose only "more" line, if any, is the last one. */
  lemma {:induction false} MoreLinesAtEnd(r: seq<string>, last: bool)
    requires r != []
    requires forall j :: 0 <= j < |r| ==> (IsMoreLine(r[j]) <==> last && j == |r| - 1)
    ensures MoreLines(r) == if last then 1 else 0
    decreases |r|
  {
    var head := if IsMoreLine(r[0]) then 1 else 0;
    assert MoreLines(r) == head + MoreLines(r[1..]);
    if |r| == 1 {
      assert r[1..] == [];
    } else {
      assert head == 0;
      forall j | 0 <= j < |r[1..]| ensures IsMoreLine(r[1..][j]) <==> last && j == |r[1..]| - 1 {
        assert r[1..][j] == r[j + 1];
      }
      MoreLinesAtEnd(r[1..], last);
    }
  }

  /** The header lines among some lines, in order. */
  function HeaderLines(lines: seq<string>): (r: seq<string>)
    ensures forall l :: l in r ==> IsHeaderLine(l)
    decreases |lines|
  {
    if lines == [] then []
    else (if IsHeaderLine(lines[0]) then [lines[0]] else []) + HeaderLines(lines[1..])
  }

  lemma {:induction false} HeaderLinesAppend(a: seq<string>, b: seq<string>)
    ensures HeaderLines(a + b) == HeaderLines(a) + HeaderLines(b)
    decreases |a|
  {
    if a != [] {
      assert (a + b)[1..] == a[1..] + b;
      HeaderLinesAppend(a[1..], b);
    } else {
      assert a + b == b;
    }
  }

  lemma {:induction false} HeaderLinesOfGroup(g: Group)
    ensures HeaderLines(GroupLines(g)) == [Header(g)]
  {
    var r := GroupLines(g);
    HeaderLinesNone(r[1..]);
    assert r == [r[0]] + r[1..];
  }

  lemma {:induction false} HeaderLinesNone(lines: seq<string>)
    requires forall j :: 0 <= j < |lines| ==> !IsHeaderLine(lines[j])
    ensures HeaderLines(lines) == []
    decreases |lines|
  {
    if lines != [] {
      HeaderLinesNone(lines[1..]);
    }
  }

  function Headers(groups: seq<Group>): (r: seq<string>)
    ensures |r| == |groups|
    ensures forall p :: 0 <= p < |groups| ==> r[p] == Header(groups[p])
    decreases |groups|
  {
    if groups == [] then [] else [Header(groups[0])] + Headers(groups[1..])
  }

  /** The grouped text has one header per group, in group order. */
  lemma {:induction false} GroupedHeaders(groups: seq<Group>)
    ensures HeaderLines(GroupedLines(groups)) == Headers(groups)
    decreases |groups|
  {
    if groups != [] {
      HeaderLinesAppend(GroupLines(groups[0]), GroupedLines(groups[1..]));
      HeaderLinesOfGroup(groups[0]);
      GroupedHeaders(groups[1..]);
    }
  }

  /** The lines of the grouped report: one group per rule number, in the
      order rule numbers first occur, each group holding exactly that rule's
      issues; one header per group in that order; every issue in one group;
      one "more" line per group with more issues than are shown. */
  function ReportLines(issues: seq<LintIssue>): (lines: seq<string>)
    ensures GroupsOf(Groups(issues), issues)
    ensures TotalSize(Groups(issues)) == |issues|
    ensures HeaderLines(lines) == Headers(Groups(issues))
    ensures issues != [] ==> lines != [] && IsHeaderLine(lines[0])
    ensures MoreLines(lines) == Overfull(Groups(issues))
  {
    var groups := Groups(issues);
    GroupsCorrect(issues);
    GroupSizesSum(issues);
    GroupedHeaders(groups);
    GroupsStartWithHeader(issues);
    GroupedLines(groups)
  }

  /** Some issue means some group, and the lines open with its header. */
  lemma GroupsStartWithHeader(issues: seq<LintIssue>)
    ensures issues != [] ==> GroupedLines(Groups(issues)) != [] && IsHeaderLine(GroupedLines(Groups(issues))[0])
  {
    if issues == [] { return; }
    var groups := Groups(issues);
    GroupsCorrect(issues);
    assert GroupIndex(groups, KeyOf(issues[0])).Some?;
    var first := GroupLines(groups[0]);
    assert GroupedLines(groups) == first + GroupedLines(groups[1..]);
    assert first[0] == Header(groups[0]);
  }

  /** The text handed to the model: the fixed message exactly when there are
      no issues, else the report lines joined by newlines. */
  function FormatLintResults(issues: seq<LintIssue>): (text: string)
    ensures text == NoIssues <==> issues == []
    ensures issues != [] ==> text == Join(ReportLines(issues), "\n") && text[0] == '\n'
  {
    if issues == [] then NoIssues
    else
      var lines := ReportLines(issues);
      JoinStartsWithFirst(lines, "\n");
      Join(lines, "\n")
  }

  lemma JoinStartsWithFirst(lines: seq<string>, sep: string)
    requires lines != [] && lines[0] != []
    ensures Join(lines, sep) != [] && Join(lines, sep)[0] == lines[0][0]
  {
  }
}
