/** The line parser inside MarkdownLinter.lint_file (mdfm_ollama.py:31-66):
    linter lines `path:line[:col] MDnnn[/name] description` become issue
    records, keeping only those that name the linted file. The pattern
    `^(.+?):(\d+)(?::(\d+))? (MD\d+(?:/[\w-]+)?) (.+)$` is modelled by its
    backtracking behaviour: the path is the shortest prefix before a `:`
    whose remainder matches the rest of the pattern, and that remainder
    matches in at most one way. */
module LintParse {
  import opened Strings

  datatype LintIssue = LintIssue(file: string, line: nat, column: nat, rule: string, description: string)

  // ---------------------------------------------------------------------------
  // The part of the pattern after `path:`

  /** The character class `[\w-]`, with `\w` taken as ASCII. */
  predicate IsWordChar(c: char) {
    ('a' <= c <= 'z') || ('A' <= c <= 'Z') || IsDigit(c) || c == '_' || c == '-'
  }

  /** `[\w-]+` matching the whole of s. */
  predicate IsName(s: string) {
    s != [] && forall i :: 0 <= i < |s| ==> IsWordChar(s[i])
  }

  /** `\d+(?:/[\w-]+)?` matching the whole of s. */
  predicate IsRuleNumber(s: string)
    decreases |s|
  {
    && s != [] && IsDigit(s[0])
    && (|s| == 1 || (IsDigit(s[1]) && IsRuleNumber(s[1..])) || (s[1] == '/' && IsName(s[2..])))
  }

  /** `MD\d+(?:/[\w-]+)?` matching the whole of r. */
  predicate IsRule(r: string) {
    |r| >= 2 && r[0] == 'M' && r[1] == 'D' && IsRuleNumber(r[2..])
  }

  /** The characters a rule name can hold. */
  predicate IsRuleChar(c: char) {
    IsWordChar(c) || c == '/'
  }

  lemma {:induction false} RuleNumberChars(s: string)
    requires IsRuleNumber(s)
    ensures forall i :: 0 <= i < |s| ==> IsRuleChar(s[i])
    decreases |s|
  {
    if |s| > 1 {
      if IsDigit(s[1]) && IsRuleNumber(s[1..]) {
        RuleNumberChars(s[1..]);
        assert forall i :: 1 <= i < |s| ==> s[i] == s[1..][i - 1];
      } else {
        assert forall i :: 2 <= i < |s| ==> s[i] == s[2..][i - 2];
      }
    }
  }

  /** A rule holds neither a space nor a newline. */
  lemma RuleChars(r: string)
    requires IsRule(r)
    ensures forall i :: 0 <= i < |r| ==> IsRuleChar(r[i])
    ensures ' ' !in r && '\n' !in r
  {
    RuleNumberChars(r[2..]);
    assert forall i :: 2 <= i < |r| ==> r[i] == r[2..][i - 2];
  }

  /** The pieces the pattern captures after `path:`: the line digits, the
      optional column digits, the rule and the description. */
  datatype Tail = Tail(lineDigits: string, colDigits: Option<string>, rule: string, description: string)

  predicate WellFormedTail(x: Tail) {
    && |x.lineDigits| >= 1 && AllDigits(x.lineDigits)
    && (x.colDigits.Some? ==> |x.colDigits.value| >= 1 && AllDigits(x.colDigits.value))
    && IsRule(x.rule)
    && x.description != [] && '\n' !in x.description
  }

  /** `rule description`. */
  function RuleText(rule: string, description: string): string {
    rule + (" " + description)
  }

  /** `[:col] rule description`, the text after the line digits. */
  function AfterLine(colDigits: Option<string>, rule: string, description: string): string {
    (if colDigits.Some? then ":" + colDigits.value else "") + (" " + RuleText(rule, description))
  }

  /** The text after `path:` that the captures came from. */
  function TailText(x: Tail): string {
    x.lineDigits + AfterLine(x.colDigits, x.rule, x.description)
  }

  datatype RulePart = RulePart(rule: string, description: string)

  /** `(MD\d+(?:/[\w-]+)?) (.+)$` on u: the rule runs to the first space. */
  function ParseRuleAndDescription(u: string): (r: Option<RulePart>)
    ensures r.Some? ==> u == RuleText(r.value.rule, r.value.description)
    ensures r.Some? ==> IsRule(r.value.rule) && r.value.description != [] && '\n' !in r.value.description
  {
    var (w, rest) := SplitAtChar(u, ' ');
    if IsRule(w) && |rest| > 1 && '\n' !in rest[1..] then
      assert rest == [rest[0]] + rest[1..];
      Some(RulePart(w, rest[1..]))
    else None
  }

  /** ` (MD...) (.+)$`: a space, then the rule and the description. */
  function ParseSpaced(s: string): (r: Option<RulePart>)
    ensures r.Some? ==> s == " " + RuleText(r.value.rule, r.value.description)
    ensures r.Some? ==> IsRule(r.value.rule) && r.value.description != [] && '\n' !in r.value.description
  {
    if s == [] || s[0] != ' ' then None
    else
      assert s == [s[0]] + s[1..];
      ParseRuleAndDescription(s[1..])
  }

  datatype ColumnPart = ColumnPart(colDigits: Option<string>, rule: string, description: string)

  /** `(?::(\d+))? (MD...) (.+)$` on the text after the line digits. */
  function ParseColumn(rest: string): (r: Option<ColumnPart>)
    ensures r.Some? ==> rest == AfterLine(r.value.colDigits, r.value.rule, r.value.description)
    ensures r.Some? && r.value.colDigits.Some? ==> |r.value.colDigits.value| >= 1 && AllDigits(r.value.colDigits.value)
    ensures r.Some? ==> IsRule(r.value.rule) && r.value.description != [] && '\n' !in r.value.description
  {
    if rest != [] && rest[0] == ':' then
      var (cd, after) := SplitDigits(rest[1..]);
      if cd == [] then None
      else match ParseSpaced(after)
        case None => None
        case Some(x) =>
          assert rest == [rest[0]] + rest[1..];
          Some(ColumnPart(Some(cd), x.rule, x.description))
    else match ParseSpaced(rest)
      case None => None
      case Some(x) => Some(ColumnPart(None, x.rule, x.description))
  }

  /** Whether the remainder of the pattern matches t. */
  predicate TailMatches(t: string) {
    var (d, rest) := SplitDigits(t);
    d != [] && ParseColumn(rest).Some?
  }

  /** The remainder of the pattern after `path:`, anchored at both ends. */
  function ParseTail(t: string): (r: Option<Tail>)
    ensures r.Some? <==> TailMatches(t)
    ensures r.Some? ==> t == TailText(r.value)
    ensures r.Some? ==> WellFormedTail(r.value)
  {
    var (d, rest) := SplitDigits(t);
    if d == [] then None
    else match ParseColumn(rest)
      case None => None
      case Some(c) => Some(Tail(d, c.colDigits, c.rule, c.description))
  }

  lemma ParseRuleAndDescriptionComplete(rule: string, desc: string)
    requires IsRule(rule) && desc != [] && '\n' !in desc
    ensures ParseRuleAndDescription(RuleText(rule, desc)) == Some(RulePart(rule, desc))
  {
    RuleChars(rule);
    SplitAtCharOf(rule, " " + desc, ' ');
    assert (" " + desc)[1..] == desc;
  }

  lemma ParseColumnComplete(cd: Option<string>, rule: string, desc: string)
    requires cd.Some? ==> |cd.value| >= 1 && AllDigits(cd.value)
    requires IsRule(rule) && desc != [] && '\n' !in desc
    ensures ParseColumn(AfterLine(cd, rule, desc)) == Some(ColumnPart(cd, rule, desc))
  {
    var spaced := " " + RuleText(rule, desc);
    ParseRuleAndDescriptionComplete(rule, desc);
    assert spaced[1..] == RuleText(rule, desc);
    assert ParseSpaced(spaced) == Some(RulePart(rule, desc));
    match cd
    case None =>
      assert AfterLine(cd, rule, desc) == spaced;
    case Some(c) =>
      var rest := ":" + c + spaced;
      assert AfterLine(cd, rule, desc) == rest;
      assert rest[1..] == c + spaced;
      SplitDigitsOf(c, spaced);
  }

  /** A well-formed capture's text parses back to exactly that capture, so the
      remainder parser accepts precisely the texts of well-formed captures. */
  lemma ParseTailComplete(x: Tail)
    requires WellFormedTail(x)
    ensures ParseTail(TailText(x)) == Some(x)
  {
    var rest := AfterLine(x.colDigits, x.rule, x.description);
    ParseColumnComplete(x.colDigits, x.rule, x.description);
    assert rest[0] == ':' || rest[0] == ' ';
    SplitDigitsOf(x.lineDigits, rest);
  }

  // ---------------------------------------------------------------------------
  // The lazy path group

  /** A `:` at k after which the rest of the pattern matches. */
  predicate Candidate(line: string, k: nat) {
    k < |line| && line[k] == ':' && TailMatches(line[k + 1..])
  }

  /** The candidate test as a predicate on positions. */
  function Candidates(line: string): nat -> bool {
    (k: nat) => Candidate(line, k)
  }

  /** p holds nowhere in [lo, hi). */
  predicate NoneIn(p: nat -> bool, lo: nat, hi: nat)
    decreases hi - lo
  {
    lo >= hi || (!p(lo) && NoneIn(p, lo + 1, hi))
  }

  lemma {:induction false} NoneInAt(p: nat -> bool, lo: nat, hi: nat, j: nat)
    requires NoneIn(p, lo, hi) && lo <= j < hi
    ensures !p(j)
    decreases hi - lo
  {
    if lo < j {
      NoneInAt(p, lo + 1, hi, j);
    }
  }

  lemma {:induction false} NoneInFrom(p: nat -> bool, lo: nat, hi: nat)
    requires forall j :: lo <= j < hi ==> !p(j)
    ensures NoneIn(p, lo, hi)
    decreases hi - lo
  {
    if lo < hi {
      NoneInFrom(p, lo + 1, hi);
    }
  }

  /** The first position in [n, end) where p holds, trying n, n+1, ... in
      turn: the lazy `.+?` tries path lengths this way. */
  function FirstWhere(p: nat -> bool, n: nat, end: nat): (k: Option<nat>)
    ensures k.Some? ==> n <= k.value < end && p(k.value) && NoneIn(p, n, k.value)
    ensures k.None? ==> NoneIn(p, n, end)
    decreases end - n
  {
    if n >= end then None
    else if p(n) then Some(n)
    else FirstWhere(p, n + 1, end)
  }

  /** The search stops at the first position where p holds. */
  lemma {:induction false} FirstWhereFinds(p: nat -> bool, n: nat, f: nat, end: nat)
    requires n <= f < end && p(f) && NoneIn(p, n, f)
    ensures FirstWhere(p, n, end) == Some(f)
    decreases f - n
  {
    if n < f {
      FirstWhereFinds(p, n + 1, f, end);
    }
  }

  /** How a line splits under the pattern: the path and the rest. */
  datatype LineParts = LineParts(file: string, tail: Tail)

  lemma SplitAtColon(line: string, k: nat, rest: string)
    requires k < |line| && line[k] == ':' && line[k + 1..] == rest
    ensures line == line[..k] + (":" + rest)
  {
    assert line[k..] == [line[k]] + line[k + 1..];
    assert line == line[..k] + line[k..];
  }

  /** re.match of the whole pattern on one line of output (the lines come from
      splitting on newlines, so none holds one): the path is the shortest
      non-empty prefix before a `:` whose remainder matches; None when no
      prefix does. */
  function MatchLine(line: string): (m: Option<LineParts>)
    requires '\n' !in line
    ensures m.Some? ==> |m.value.file| >= 1 && line == m.value.file + (":" + TailText(m.value.tail))
    ensures m.Some? ==> WellFormedTail(m.value.tail)
    ensures m.Some? ==> NoneIn(Candidates(line), 1, |m.value.file|)
    ensures m.None? ==> NoneIn(Candidates(line), 1, |line|)
  {
    match FirstWhere(Candidates(line), 1, |line|)
    case None => None
    case Some(k) =>
      assert Candidate(line, k) by {
        assert Candidates(line)(k);
      }
      var x := ParseTail(line[k + 1..]).value;
      SplitAtColon(line, k, TailText(x));
      Some(LineParts(line[..k], x))
  }

  // ---------------------------------------------------------------------------
  // Issue records (mdfm_ollama.py:45-59)

  /** The issue a matched line describes: the numbers read with int(), a
      missing column read as 0. */
  function ParseLine(line: string): (r: Option<LintIssue>)
    requires '\n' !in line
    ensures r.Some? <==> MatchLine(line).Some?
    ensures r.Some? ==> (
      var x := MatchLine(line).value;
      && r.value.file == x.file && r.value.rule == x.tail.rule && r.value.description == x.tail.description
      && r.value.line == DecimalValue(x.tail.lineDigits)
      && r.value.column == (if x.tail.colDigits.Some? then DecimalValue(x.tail.colDigits.value) else 0))
  {
    match MatchLine(line)
    case None => None
    case Some(x) =>
      var col := if x.tail.colDigits.Some? then DecimalValue(x.tail.colDigits.value) else 0;
      Some(LintIssue(x.file, DecimalValue(x.tail.lineDigits), col, x.tail.rule, x.tail.description))
  }

  /** An issue the linter could have printed: the shapes the pattern can read. */
  predicate Printable(i: LintIssue) {
    && i.file != [] && ':' !in i.file && '\n' !in i.file
    && IsRule(i.rule) && i.description != [] && '\n' !in i.description
  }

  /** The linter's line for an issue: `path:line[:col] rule description`, the
      column left out when it is 0. */
  function Render(i: LintIssue): string {
    i.file + (":" + TailText(RenderTail(i)))
  }

  function RenderTail(i: LintIssue): Tail {
    Tail(NatToString(i.line), if i.column > 0 then Some(NatToString(i.column)) else None, i.rule, i.description)
  }

  lemma TailTextNoNewline(x: Tail)
    requires WellFormedTail(x)
    ensures '\n' !in TailText(x)
  {
    RuleChars(x.rule);
    assert forall i :: 0 <= i < |x.lineDigits| ==> IsDigit(x.lineDigits[i]);
  }

  lemma RenderedCandidate(i: LintIssue)
    requires Printable(i)
    ensures Candidate(Render(i), |i.file|)
    ensures Render(i)[|i.file| + 1..] == TailText(RenderTail(i))
  {
    var line := Render(i);
    ParseTailComplete(RenderTail(i));
    assert line[|i.file| + 1..] == TailText(RenderTail(i));
  }

  lemma RenderedScan(i: LintIssue)
    requires Printable(i)
    ensures FirstWhere(Candidates(Render(i)), 1, |Render(i)|) == Some(|i.file|)
  {
    var line := Render(i);
    var p := Candidates(line);
    RenderedCandidate(i);
    assert p(|i.file|);
    forall j | 1 <= j < |i.file| ensures !p(j) {
      assert line[j] == i.file[j];
    }
    NoneInFrom(p, 1, |i.file|);
    FirstWhereFinds(p, 1, |i.file|, |line|);
  }

  lemma RenderedMatch(i: LintIssue)
    requires Printable(i)
    ensures '\n' !in Render(i)
    ensures MatchLine(Render(i)) == Some(LineParts(i.file, RenderTail(i)))
  {
    var line := Render(i);
    var x := RenderTail(i);
    var k := |i.file|;
    assert '\n' !in line by {
      TailTextNoNewline(x);
    }
    assert FirstWhere(Candidates(line), 1, |line|) == Some(k) by {
      RenderedScan(i);
    }
    assert ParseTail(line[k + 1..]) == Some(x) by {
      RenderedCandidate(i);
      ParseTailComplete(x);
    }
    assert line[..k] == i.file;
  }

  /** Reading back a printed line gives the issue it was printed from. */
  lemma ParseRendered(i: LintIssue)
    requires Printable(i)
    ensures '\n' !in Render(i)
    ensures ParseLine(Render(i)) == Some(i)
  {
    RenderedMatch(i);
    var x := RenderTail(i);
    assert DecimalValue(x.lineDigits) == i.line;
    assert (if x.colDigits.Some? then DecimalValue(x.colDigits.value) else 0) == i.column;
  }

  /** Every line the parser reads is non-blank and holds a `:`, so the
      pre-filter in front of it rejects nothing the parser would accept. */
  lemma PreFilterRedundant(line: string)
    requires '\n' !in line && ParseLine(line).Some?
    ensures !IsBlank(line) && ':' in line
  {
    var x := MatchLine(line).value;
    var k := |x.file|;
    assert line[k] == ':';
    assert line[k + 1..] == TailText(x.tail);
    assert line[k + 1..][0] == x.tail.lineDigits[0];
    assert !IsSpace(line[k + 1]);
  }

  // ---------------------------------------------------------------------------
  // Which lines are kept (mdfm_ollama.py:31-34, 51-52)

  /** os.path.basename: the text after the last '/'. */
  function Basename(path: string): (b: string)
    ensures EndsWith(path, b) && '/' !in b
    ensures |b| == |path| || path[|path| - |b| - 1] == '/'
    decreases |path|
  {
    if path == [] || path[|path| - 1] == '/' then []
    else
      var b := Basename(path[..|path| - 1]) + [path[|path| - 1]];
      assert path[|path| - |b|..] == path[..|path| - 1][|path| - |b|..] + [path[|path| - 1]];
      b
  }

  /** The issue's path is the linted path, or ends with its last component. */
  predicate Keep(i: LintIssue, filePath: string) {
    i.file == filePath || EndsWith(i.file, Basename(filePath))
  }

  /** The issue one output line contributes, if any. */
  function LineIssue(line: string, filePath: string): (r: Option<LintIssue>)
    requires '\n' !in line
    ensures r.Some? <==> ParseLine(line).Some? && Keep(ParseLine(line).value, filePath)
    ensures r.Some? ==> r == ParseLine(line)
  {
    assert ParseLine(line).Some? ==> !IsBlank(line) && ':' in line by {
      if ParseLine(line).Some? { PreFilterRedundant(line); }
    }
    if !IsBlank(line) && ':' in line then
      match ParseLine(line)
      case Some(i) => if Keep(i, filePath) then Some(i) else None
      case None => None
    else None
  }

  /** The present values of a list of optional values, in order. */
  function Somes<T>(o: seq<Option<T>>): (r: seq<T>)
    ensures |r| <= |o|
    decreases |o|
  {
    if o == [] then []
    else
      var r := Somes(o[..|o| - 1]);
      match o[|o| - 1]
      case Some(x) => r + [x]
      case None => r
  }

  lemma {:induction false} SomesMembers<T>(o: seq<Option<T>>)
    ensures forall x :: x in Somes(o) <==> Some(x) in o
    decreases |o|
  {
    if o != [] {
      var n := |o| - 1;
      SomesMembers(o[..n]);
      assert o == o[..n] + [o[n]];
    }
  }

  lemma {:induction false} SomesAppend<T>(a: seq<Option<T>>, b: seq<Option<T>>)
    ensures Somes(a + b) == Somes(a) + Somes(b)
    decreases |b|
  {
    if b == [] {
      assert a + b == a;
    } else {
      var n := |b| - 1;
      assert (a + b)[..|a + b| - 1] == a + b[..n];
      assert (a + b)[|a + b| - 1] == b[n];
      SomesAppend(a, b[..n]);
    }
  }

  /** A function applied to every element of a list. */
  function Map<A, B>(f: A -> B, xs: seq<A>): (r: seq<B>)
    ensures |r| == |xs|
    ensures forall k :: 0 <= k < |xs| ==> r[k] == f(xs[k])
  {
    seq(|xs|, k requires 0 <= k < |xs| => f(xs[k]))
  }

  lemma MapAppend<A, B>(f: A -> B, a: seq<A>, b: seq<A>)
    ensures Map(f, a + b) == Map(f, a) + Map(f, b)
  {
    assert forall k :: 0 <= k < |a + b| ==> (a + b)[k] == if k < |a| then a[k] else b[k - |a|];
  }

  /** One output line's issue, for lines as they come from splitting the
      output on newlines. */
  function Reader(filePath: string): string -> Option<LintIssue> {
    (line: string) => if '\n' in line then None else LineIssue(line, filePath)
  }

  lemma ReaderReads(filePath: string, line: string, i: LintIssue)
    requires '\n' !in line
    ensures Reader(filePath)(line) == Some(i) <==> ParseLine(line) == Some(i) && Keep(i, filePath)
  {
  }

  /** The issues of a list of output lines, in line order. */
  function LintLines(lines: seq<string>, filePath: string): (r: seq<LintIssue>)
    requires NoNewlines(lines)
    ensures |r| <= |lines|
    ensures forall i :: i in r <==> exists k :: 0 <= k < |lines| && ParseLine(lines[k]) == Some(i) && Keep(i, filePath)
  {
    var o := Map(Reader(filePath), lines);
    SomesMembers(o);
    forall i ensures Some(i) in o <==> exists k :: 0 <= k < |lines| && ParseLine(lines[k]) == Some(i) && Keep(i, filePath) {
      forall k | 0 <= k < |lines| ensures o[k] == Some(i) <==> ParseLine(lines[k]) == Some(i) && Keep(i, filePath) {
        ReaderReads(filePath, lines[k], i);
      }
    }
    Somes(o)
  }

  /** Reading two runs of output one after the other gives the issues of each,
      in order. */
  lemma LintLinesAppend(a: seq<string>, b: seq<string>, filePath: string)
    requires NoNewlines(a) && NoNewlines(b)
    ensures NoNewlines(a + b)
    ensures LintLines(a + b, filePath) == LintLines(a, filePath) + LintLines(b, filePath)
  {
    assert forall k :: 0 <= k < |a + b| ==> (a + b)[k] == if k < |a| then a[k] else b[k - |a|];
    MapAppend(Reader(filePath), a, b);
    SomesAppend(Map(Reader(filePath), a), Map(Reader(filePath), b));
  }

  /** `stderr.strip().split('\n')`: the lines of the output, none holding a
      newline, that rejoin to the stripped output. */
  function OutputLines(stderr: string): (lines: seq<string>)
    ensures |lines| >= 1 && NoNewlines(lines)
    ensures Join(lines, "\n") == Strip(stderr)
  {
    SplitLinesHaveNoNewline(Strip(stderr));
    Split(Strip(stderr), "\n")
  }

  /** lint_file's parsing of the linter's error output: nothing when the
      output is empty, else the kept issues of its stripped lines. */
  function LintFile(stderr: string, filePath: string): (r: seq<LintIssue>)
    ensures stderr == [] ==> r == []
    ensures forall i :: i in r <==>
      stderr != [] && (exists k :: 0 <= k < |OutputLines(stderr)|
                                && ParseLine(OutputLines(stderr)[k]) == Some(i) && Keep(i, filePath))
  {
    if stderr == [] then [] else LintLines(OutputLines(stderr), filePath)
  }

  lemma OutputOfOneLine(line: string)
    requires '\n' !in line && line != [] && !IsSpace(line[0]) && !IsSpace(line[|line| - 1])
    ensures OutputLines(line) == [line]
  {
    StripOfTrimmed(line);
    SplitOneLine(line);
  }

  lemma SomesOfOne<A, T>(f: A -> Option<T>, x: A, v: T)
    requires f(x) == Some(v)
    ensures Somes(Map(f, [x])) == [v]
  {
    assert Map(f, [x]) == [Some(v)];
    assert Somes([Some(v)]) == [v];
  }

  /** A single printed issue line for the linted file is read back as that
      one issue. */
  lemma LintFileOneLine(i: LintIssue, filePath: string)
    requires Printable(i) && Keep(i, filePath)
    requires !IsSpace(i.file[0]) && !IsSpace(i.description[|i.description| - 1])
    ensures LintFile(Render(i), filePath) == [i]
  {
    var line := Render(i);
    assert OutputLines(line) == [line] by {
      ParseRendered(i);
      assert line[0] == i.file[0];
      assert line[|line| - 1] == i.description[|i.description| - 1];
      OutputOfOneLine(line);
    }
    assert Reader(filePath)(line) == Some(i) by {
      ParseRendered(i);
      ReaderReads(filePath, line, i);
    }
    SomesOfOne(Reader(filePath), line, i);
  }
}
