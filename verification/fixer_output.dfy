/** The deterministic parts of markdown_fixer.py: the post-processing of the
    linter's report in run_markdownlint (markdown_fixer.py:28-58) and the
    normalisation of the model's reply in main (markdown_fixer.py:239-249). */
module FixerOutput {
  import opened Strings

  // ---------------------------------------------------------------------------
  // Dropping line-length reports (markdown_fixer.py:28-39)

  const LineLengthRule: string := "MD013/line-length"

  predicate Reported(line: string) {
    Contains(line, LineLengthRule)
  }

  /** The lines that survive, in order. */
  function Kept(lines: seq<string>): (r: seq<string>)
    ensures IsSubsequence(r, lines)
    ensures forall l :: l in r <==> l in lines && !Reported(l)
    decreases |lines|
  {
    if lines == [] then []
    else
      var rest := Kept(lines[1..]);
      assert forall l :: l in lines[1..] ==> l in lines;
      assert forall l :: l in lines ==> l == lines[0] || l in lines[1..];
      if Reported(lines[0]) then rest else [lines[0]] + rest
  }

  /** How many lines report the rule. */
  function Marked(lines: seq<string>): (n: nat)
    ensures n + |Kept(lines)| == |lines|
    decreases |lines|
  {
    if lines == [] then 0 else (if Reported(lines[0]) then 1 else 0) + Marked(lines[1..])
  }

  lemma {:induction false} KeptAppend(a: seq<string>, b: seq<string>)
    ensures Kept(a + b) == Kept(a) + Kept(b)
    ensures Marked(a + b) == Marked(a) + Marked(b)
    decreases |a|
  {
    if a == [] {
      assert a + b == b;
    } else {
      assert (a + b)[1..] == a[1..] + b;
      KeptAppend(a[1..], b);
    }
  }

  // ---------------------------------------------------------------------------
  // The summary count (markdown_fixer.py:41-53)

  /** The label whose presence triggers the rewrite. */
  const SummaryLabel: string := "Summary:"
  const SummaryLead: string := "Summary: "
  const SummaryTail: string := " error(s)"

  /** A summary at the start of a text: its digits and the text after it. */
  datatype SummaryCut = SummaryCut(digits: string, after: string)

  /** `Summary: (\d+) error\(s\)` matching at the start of t. The digit run
      is greedy; since the tail begins with a space, no shorter run could be
      followed by it, so backtracking finds nothing else. */
  function SummaryStart(t: string): (m: Option<SummaryCut>)
    ensures m.Some? ==> |m.value.digits| >= 1 && AllDigits(m.value.digits)
    ensures m.Some? ==> t == SummaryLead + m.value.digits + SummaryTail + m.value.after
  {
    if StartsWith(t, SummaryLead) then
      var (digits, rest) := SplitDigits(t[|SummaryLead|..]);
      if digits != [] && StartsWith(rest, SummaryTail) then
        assert t == t[..|SummaryLead|] + t[|SummaryLead|..];
        assert rest == rest[..|SummaryTail|] + rest[|SummaryTail|..];
        Some(SummaryCut(digits, rest[|SummaryTail|..]))
      else None
    else None
  }

  /** Every summary text is read back as its digits and what follows it. */
  lemma SummaryStartOf(digits: string, after: string)
    requires |digits| >= 1 && AllDigits(digits)
    ensures SummaryStart(SummaryLead + digits + SummaryTail + after) == Some(SummaryCut(digits, after))
  {
    var t := SummaryLead + digits + SummaryTail + after;
    var rest := SummaryTail + after;
    assert t[..|SummaryLead|] == SummaryLead;
    assert t[|SummaryLead|..] == digits + rest;
    SplitDigitsOf(digits, rest);
    assert rest[..|SummaryTail|] == SummaryTail;
    assert rest[|SummaryTail|..] == after;
  }

  /** re.search and int(group(1)): the count stated by the leftmost summary. */
  function FirstCount(s: string): Option<nat>
    decreases |s|
  {
    if s == [] then None
    else match SummaryStart(s)
      case Some(m) => Some(DecimalValue(m.digits))
      case None => FirstCount(s[1..])
  }

  /** re.sub: every summary, left to right, replaced by `replacement`. */
  function ReplaceSummaries(s: string, replacement: string): string
    decreases |s|
  {
    if s == [] then []
    else match SummaryStart(s)
      case Some(m) => replacement + ReplaceSummaries(m.after, replacement)
      case None => [s[0]] + ReplaceSummaries(s[1..], replacement)
  }

  ghost predicate NoSummary(s: string) {
    forall j :: 0 <= j <= |s| ==> SummaryStart(s[j..]).None?
  }

  /** Text without a summary is left as it is. */
  lemma {:induction false} ReplaceNothing(s: string, replacement: string)
    requires NoSummary(s)
    ensures ReplaceSummaries(s, replacement) == s
    decreases |s|
  {
    if s != [] {
      assert s[0..] == s;
      forall j | 0 <= j <= |s[1..]| ensures SummaryStart(s[1..][j..]).None? {
        assert s[1..][j..] == s[1 + j..];
      }
      ReplaceNothing(s[1..], replacement);
      assert s == [s[0]] + s[1..];
    }
  }

  /** The replacement text for a count. */
  function SummaryText(count: int): string {
    SummaryLead + IntToString(count) + SummaryTail
  }

  /** The summary step: when a summary is present, every summary is rewritten
      with the first one's count less the lines removed. */
  function RewriteSummary(s: string, removed: nat): string {
    match SummaryCount(s)
    case Some(count) => ReplaceSummaries(s, SummaryText(count - removed))
    case None => s
  }

  /** The count the rewrite starts from: the first summary's, when the
      label is present. */
  function SummaryCount(s: string): Option<nat> {
    if Contains(s, SummaryLabel) then FirstCount(s) else None
  }

  /** No summary match starts at any of the first k positions of s. */
  ghost predicate NoSummaryBefore(s: string, k: nat)
    requires k <= |s|
  {
    forall j :: 0 <= j < k ==> SummaryStart(s[j..]).None?
  }

  lemma SummaryNeedsS(t: string)
    requires t == [] || t[0] != 'S'
    ensures SummaryStart(t).None?
  {
    if |SummaryLead| <= |t| {
      assert t[..|SummaryLead|][0] == t[0];
    }
  }

  /** Text without an 'S' starts no summary, whatever follows it. */
  lemma PlainTextNoSummary(a: string, x: string)
    requires 'S' !in a
    ensures NoSummaryBefore(a + x, |a|)
  {
    forall j | 0 <= j < |a| ensures SummaryStart((a + x)[j..]).None? {
      assert (a + x)[j..][0] == a[j];
      SummaryNeedsS((a + x)[j..]);
    }
  }

  /** No summary starts at the first character, and none in the rest of a. */
  lemma NoSummaryBeforeTail(a: string, x: string)
    requires a != [] && NoSummaryBefore(a + x, |a|)
    ensures (a + x)[0] == a[0] && (a + x)[1..] == a[1..] + x
    ensures SummaryStart(a + x).None?
    ensures NoSummaryBefore(a[1..] + x, |a| - 1)
  {
    var s := a + x;
    assert s[1..] == a[1..] + x;
    assert s[0..] == s;
    forall j | 0 <= j < |a| - 1 ensures SummaryStart((a[1..] + x)[j..]).None? {
      assert (a[1..] + x)[j..] == s[j + 1..];
    }
  }

  lemma {:induction false} ReplaceAfterPlainText(a: string, x: string, replacement: string)
    requires NoSummaryBefore(a + x, |a|)
    ensures ReplaceSummaries(a + x, replacement) == a + ReplaceSummaries(x, replacement)
    decreases |a|
  {
    if a == [] {
      assert a + x == x;
    } else {
      NoSummaryBeforeTail(a, x);
      assert ReplaceSummaries(a + x, replacement) == [a[0]] + ReplaceSummaries(a[1..] + x, replacement);
      ReplaceAfterPlainText(a[1..], x, replacement);
      ConsRegroup(a, ReplaceSummaries(x, replacement));
    }
  }

  lemma SummaryTextMatches(n: nat, c: string)
    ensures SummaryStart(SummaryText(n) + c) == Some(SummaryCut(NatToString(n), c))
    ensures FirstCount(SummaryText(n) + c) == Some(n)
  {
    var digits := NatToString(n);
    assert SummaryText(n) + c == SummaryLead + digits + SummaryTail + c;
    SummaryStartOf(digits, c);
  }

  lemma {:induction false} FirstCountAfterPlainText(a: string, x: string)
    requires NoSummaryBefore(a + x, |a|)
    ensures FirstCount(a + x) == FirstCount(x)
    decreases |a|
  {
    if a == [] {
      assert a + x == x;
    } else {
      NoSummaryBeforeTail(a, x);
      FirstCountAfterPlainText(a[1..], x);
    }
  }

  /** A summary followed by text that holds no other summary is replaced,
      and the text after it is kept. */
  lemma ReplaceSummaryText(n: nat, c: string, replacement: string)
    requires NoSummary(c)
    ensures ReplaceSummaries(SummaryText(n) + c, replacement) == replacement + c
  {
    SummaryTextMatches(n, c);
    ReplaceNothing(c, replacement);
  }

  lemma LabelPresent(a: string, n: nat, c: string)
    ensures Contains(a + (SummaryText(n) + c), SummaryLabel)
  {
    var s := a + (SummaryText(n) + c);
    assert s[|a|..|a| + |SummaryLabel|] == SummaryLabel;
    ContainsAt(s, SummaryLabel, |a|);
  }

  lemma {:induction false} RewriteWithCount(s: string, n: nat, removed: nat)
    requires Contains(s, SummaryLabel) && FirstCount(s) == Some(n)
    ensures RewriteSummary(s, removed) == ReplaceSummaries(s, SummaryText(n - removed))
  {
    SummaryCountIs(s, n);
    RewriteOfCount(s, n, removed);
  }

  /** With the label present, the starting count is the first summary's. */
  lemma SummaryCountIs(s: string, n: nat)
    requires Contains(s, SummaryLabel) && FirstCount(s) == Some(n)
    ensures SummaryCount(s) == Some(n)
  {
  }

  /** A known starting count fixes the replacement text. */
  lemma RewriteOfCount(s: string, n: nat, removed: nat)
    requires SummaryCount(s) == Some(n)
    ensures RewriteSummary(s, removed) == ReplaceSummaries(s, SummaryText(n - removed))
  {
  }

  /** A report with one summary match, none starting before it or after it,
      gets that count lowered by the lines removed, and nothing else changes. */
  lemma SummaryRewritten(a: string, n: nat, c: string, removed: nat)
    requires NoSummaryBefore(a + SummaryText(n) + c, |a|) && NoSummary(c)
    ensures RewriteSummary(a + SummaryText(n) + c, removed) == a + SummaryText(n - removed) + c
  {
    var x := SummaryText(n) + c;
    var s := a + x;
    var t := SummaryText(n - removed);
    assert a + SummaryText(n) + c == s;
    assert RewriteSummary(s, removed) == ReplaceSummaries(s, t) by {
      assert FirstCount(s) == Some(n) by {
        SummaryTextMatches(n, c);
        FirstCountAfterPlainText(a, x);
      }
      assert Contains(s, SummaryLabel) by {
        LabelPresent(a, n, c);
      }
      RewriteWithCount(s, n, removed);
    }
    assert ReplaceSummaries(s, t) == a + (t + c) by {
      ReplaceAfterPlainText(a, x, t);
      ReplaceSummaryText(n, c, t);
    }
    assert a + (t + c) == a + t + c;
  }

  // ---------------------------------------------------------------------------
  // Dropping the file path (markdown_fixer.py:55-58)

  /** `[^:]+\.md`: at least one character, then ".md". */
  predicate MdPath(p: string) {
    |p| >= 4 && p[|p| - 3] == '.' && p[|p| - 2] == 'm' && p[|p| - 1] == 'd'
  }

  /** `(?::\d+)?`, greedy, at the start of t: a colon and its digits when
      they are there, else nothing; and the text after it. */
  function ColumnCut(t: string): (r: (string, string))
    ensures t == r.0 + r.1
    ensures r.0 == [] || (|r.0| >= 2 && r.0[0] == ':')
  {
    if t != [] && t[0] == ':' then
      var (d, rest) := SplitDigits(t[1..]);
      if d != [] then
        assert t == [t[0]] + t[1..];
        ([t[0]] + d, rest)
      else ([], t)
    else ([], t)
  }

  /** A line break after the column leaves it where it is. */
  lemma ColumnCutAppend(x: string, t: string)
    requires t == [] || t[0] == '\n'
    ensures ColumnCut(x + t) == (ColumnCut(x).0, ColumnCut(x).1 + t)
  {
    var s := x + t;
    if x == [] {
      assert s == t;
    } else {
      assert s[0] == x[0];
      if x[0] == ':' {
        assert s[1..] == x[1..] + t;
        SplitDigitsAppend(x[1..], t);
      }
    }
  }

  /** A match of `[^:]+\.md:(\d+(?::\d+)?)` at the start of a text: the path
      before the colon, the captured group, and the text after the match. */
  datatype PathCut = PathCut(path: string, group: string, after: string)

  /** The match at the start of s. `[^:]+` runs to the first colon, which may
      lie on a later line: the class does not exclude the newline. */
  function PathAt(s: string): (h: Option<PathCut>)
    ensures h.Some? ==> s == h.value.path + (":" + (h.value.group + h.value.after))
    ensures h.Some? ==> ':' !in h.value.path && MdPath(h.value.path)
    ensures h.Some? ==> h.value.group != [] && IsDigit(h.value.group[0])
  {
    var cut := SplitAtChar(s, ':');
    if cut.1 != [] && MdPath(cut.0) then
      var digits := SplitDigits(cut.1[1..]);
      if digits.0 != [] then
        var col := ColumnCut(digits.1);
        assert cut.1[1..] == digits.0 + (col.0 + col.1) == (digits.0 + col.0) + col.1;
        assert cut.1 == ":" + cut.1[1..];
        Some(PathCut(cut.0, digits.0 + col.0, col.1))
      else None
    else None
  }

  /** A path ending in ".md", a colon and digits is always matched, up to the
      colon: the path is removed and nothing after the colon is lost. */
  lemma PathAtOf(p: string, tail: string)
    requires ':' !in p && MdPath(p)
    requires tail != [] && IsDigit(tail[0])
    ensures PathAt(p + ":" + tail).Some?
    ensures PathAt(p + ":" + tail).value.path == p
    ensures PathAt(p + ":" + tail).value.group + PathAt(p + ":" + tail).value.after == tail
  {
    var s := p + ":" + tail;
    assert SplitAtChar(s, ':') == (p, ":" + tail) by {
      assert s == p + (":" + tail);
      SplitAtCharOf(p, ":" + tail, ':');
    }
    assert SplitDigits(tail).0 != [] by {
      var r := SplitDigits(tail);
      assert r.0 == [] ==> r.1 == tail;
    }
    PathAtSplit(s, p, tail);
  }

  /** Once the path and the digits are found, the match is determined. */
  lemma PathAtSplit(s: string, p: string, tail: string)
    requires SplitAtChar(s, ':') == (p, ":" + tail) && MdPath(p)
    requires SplitDigits(tail).0 != []
    ensures PathAt(s).Some? && PathAt(s).value.path == p
    ensures PathAt(s).value.group + PathAt(s).value.after == tail
  {
    var fromColon := ":" + tail;
    assert fromColon[1..] == tail;
    var d, rest := SplitDigits(tail).0, SplitDigits(tail).1;
    var c := ColumnCut(rest);
    assert PathAt(s) == Some(PathCut(p, d + c.0, c.1)) by {
      PathAtOfCut(s, SplitAtChar(s, ':'));
    }
    Regroup(tail, d, rest, c.0, c.1);
  }

  lemma Regroup(t: string, d: string, r: string, x: string, y: string)
    requires t == d + r && r == x + y
    ensures (d + x) + y == t
  {
  }

  /** PathAt in terms of the cut at the first colon. */
  lemma PathAtOfCut(s: string, cut: (string, string))
    requires cut == SplitAtChar(s, ':') && cut.1 != [] && MdPath(cut.0)
    requires SplitDigits(cut.1[1..]).0 != []
    ensures var digits := SplitDigits(cut.1[1..]);
      PathAt(s) == Some(PathCut(cut.0, digits.0 + ColumnCut(digits.1).0, ColumnCut(digits.1).1))
  {
  }

  /** Text on later lines does not move a match that ends on the first. */
  lemma PathAtAppend(a: string, t: string)
    requires ':' in a && '\n' !in a
    requires t == [] || t[0] == '\n'
    ensures PathAt(a + t).Some? <==> PathAt(a).Some?
    ensures PathAt(a).Some? ==> PathAt(a + t) == Some(PathAt(a).value.(after := PathAt(a).value.after + t))
  {
    var (path, fromColon) := SplitAtChar(a, ':');
    SplitAtCharAppend(a, t, ':');
    assert fromColon != [];
    var f2 := fromColon + t;
    assert f2[1..] == fromColon[1..] + t;
    SplitDigitsAppend(fromColon[1..], t);
    var (d, rest) := SplitDigits(fromColon[1..]);
    if d != [] {
      ColumnCutAppend(rest, t);
    }
  }

  /** `re.sub(..., r'\1', ..., flags=re.MULTILINE)`: a match is tried at each
      line start, left to right, and replaced by its group; `atStart` says
      whether s begins a line. */
  function SubPaths(s: string, atStart: bool): (r: string)
    ensures |r| <= |s|
    decreases |s|
  {
    if s == [] then []
    else if atStart && PathAt(s).Some? then
      var h := PathAt(s).value;
      h.group + SubPaths(h.after, false)
    else [s[0]] + SubPaths(s[1..], s[0] == '\n')
  }

  /** The path removal as markdown_fixer.py:58 writes it. */
  function StripPathsAsWritten(s: string): (r: string)
    ensures |r| <= |s|
  {
    SubPaths(s, true)
  }

  /** The path removal the comment at markdown_fixer.py:56-57 describes, on one
      line: a line `path.md:line[:column]...` keeps what follows the path and
      its colon; any other line is left as it is. */
  function StripLinePath(line: string): (r: string)
    ensures PathAt(line).None? ==> r == line
    ensures PathAt(line).Some? ==> line == PathAt(line).value.path + ":" + r && r != [] && IsDigit(r[0])
  {
    match PathAt(line)
    case None => line
    case Some(h) => h.group + h.after
  }

  function StripLines(lines: seq<string>): (r: seq<string>)
    ensures |r| == |lines|
    ensures forall k :: 0 <= k < |lines| ==> r[k] == StripLinePath(lines[k])
  {
    seq(|lines|, k requires 0 <= k < |lines| => StripLinePath(lines[k]))
  }

  /** The corrected path removal: each line on its own. */
  function StripPaths(s: string): string {
    Join(StripLines(Split(s, "\n")), "\n")
  }

  /** A report line `path.md:digits...` loses exactly its path and colon. */
  lemma StripLinePathOf(p: string, n: string, rest: string)
    requires p != [] && ':' !in p
    requires n != [] && AllDigits(n)
    ensures StripLinePath(p + ".md:" + n + rest) == n + rest
  {
    var q := p + ".md";
    assert ':' !in q by {
      assert forall j :: 0 <= j < |q| ==> q[j] == if j < |p| then p[j] else ".md"[j - |p|];
    }
    assert MdPath(q);
    assert p + ".md:" + n + rest == q + ":" + (n + rest);
    PathAtOf(q, n + rest);
  }

  /** Away from a line start, a text without line breaks is copied. */
  lemma {:induction false} CopyLine(x: string, rest: string)
    requires '\n' !in x
    ensures SubPaths(x + rest, false) == x + SubPaths(rest, false)
    decreases |x|
  {
    if x == [] {
      assert x + rest == rest;
    } else {
      CopyStep(x, rest);
      CopyLine(x[1..], rest);
      ConsRegroup(x, SubPaths(rest, false));
    }
  }

  /** Inside a line, one character is copied. */
  lemma CopyStep(x: string, rest: string)
    requires x != [] && x[0] != '\n'
    ensures SubPaths(x + rest, false) == [x[0]] + SubPaths(x[1..] + rest, false)
  {
    var s := x + rest;
    assert s[0] == x[0];
    assert s[1..] == x[1..] + rest;
  }

  lemma ConsRegroup(x: string, t: string)
    requires x != []
    ensures [x[0]] + (x[1..] + t) == x + t
  {
    assert [x[0]] + x[1..] == x;
  }

  /** After the match, the rest of the line is copied and the next line starts. */
  lemma SubPathsRestOfLine(x: string, b: string)
    requires '\n' !in x
    ensures SubPaths(x + "\n" + b, false) == x + "\n" + SubPaths(b, true)
  {
    CopyLine(x, "\n" + b);
    var s := "\n" + b;
    assert s[0] == '\n' && s[1..] == b;
    assert x + "\n" + b == x + s;
    assert x + ("\n" + SubPaths(b, true)) == x + "\n" + SubPaths(b, true);
  }

  /** A last line is copied once its start has been dealt with. */
  lemma SubPathsLastLine(x: string)
    requires '\n' !in x
    ensures SubPaths(x, false) == x
  {
    CopyLine(x, []);
    assert x + [] == x;
  }

  lemma SubPathsMiss(s: string, atStart: bool)
    requires s != [] && !(atStart && PathAt(s).Some?)
    ensures SubPaths(s, atStart) == [s[0]] + SubPaths(s[1..], s[0] == '\n')
  {
  }

  /** The first line of several, when it holds a colon, is treated as on its
      own. */
  lemma SubPathsFirstLine(a: string, b: string)
    requires ':' in a && '\n' !in a
    ensures SubPaths(a + "\n" + b, true) == StripLinePath(a) + "\n" + SubPaths(b, true)
  {
    assert a + "\n" + b == a + ("\n" + b);
    PathAtAppend(a, "\n" + b);
    match PathAt(a)
    case Some(h) =>
      NoNewlineAfterPath(a);
      FirstLineWithPath(a + ("\n" + b), b, h);
    case None => FirstLineWithoutPath(a, b);
  }

  /** What follows a match is a suffix of the text, so a single line's match
      leaves no line break behind it. */
  lemma NoNewlineAfterPath(a: string)
    requires '\n' !in a && PathAt(a).Some?
    ensures '\n' !in PathAt(a).value.after
  {
    var h := PathAt(a).value;
    var before := h.path + (":" + h.group);
    assert a == before + h.after;
  }

  /** A match on the first line: its group and the rest of that line, then
      the later lines from a line start. */
  lemma FirstLineWithPath(s: string, b: string, h: PathCut)
    requires '\n' !in h.after
    requires PathAt(s) == Some(h.(after := h.after + ("\n" + b)))
    ensures SubPaths(s, true) == (h.group + h.after) + "\n" + SubPaths(b, true)
  {
    SubPathsHit(s, h.(after := h.after + ("\n" + b)));
    FirstLineHit(h.group, h.after, b);
  }

  lemma FirstLineWithoutPath(a: string, b: string)
    requires '\n' !in a && a != [] && PathAt(a + ("\n" + b)).None?
    ensures SubPaths(a + ("\n" + b), true) == a + "\n" + SubPaths(b, true)
  {
    var s := a + ("\n" + b);
    assert SubPaths(s, true) == [a[0]] + SubPaths(a[1..] + "\n" + b, false) by {
      SubPathsMiss(s, true);
      assert s[0] == a[0];
      assert s[1..] == a[1..] + "\n" + b;
    }
    FirstLineMiss(a, b);
  }

  lemma SubPathsHit(s: string, h: PathCut)
    requires PathAt(s) == Some(h)
    ensures SubPaths(s, true) == h.group + SubPaths(h.after, false)
  {
  }

  /** What follows a match on the first line: the rest of that line, then
      the later lines from a line start. */
  lemma FirstLineHit(g: string, x: string, b: string)
    requires '\n' !in x
    ensures g + SubPaths(x + ("\n" + b), false) == (g + x) + "\n" + SubPaths(b, true)
  {
    var tail := SubPaths(b, true);
    assert x + ("\n" + b) == x + "\n" + b;
    SubPathsRestOfLine(x, b);
    assert g + (x + "\n" + tail) == (g + x) + "\n" + tail;
  }

  /** A first line without a match is copied whole. */
  lemma FirstLineMiss(a: string, b: string)
    requires a != [] && '\n' !in a
    ensures [a[0]] + SubPaths(a[1..] + "\n" + b, false) == a + "\n" + SubPaths(b, true)
  {
    SubPathsRestOfLine(a[1..], b);
    assert [a[0]] + (a[1..] + "\n" + SubPaths(b, true)) == a + "\n" + SubPaths(b, true);
  }

  /** A line on its own, the last of a report. */
  lemma SubPathsOneLine(a: string)
    requires '\n' !in a
    ensures SubPaths(a, true) == StripLinePath(a)
  {
    match PathAt(a)
    case Some(h) =>
      NoNewlineAfterPath(a);
      SubPathsLastLine(h.after);
    case None =>
      if a != [] {
        SubPathsMiss(a, true);
        SubPathsLastLine(a[1..]);
        assert [a[0]] + a[1..] == a;
      }
  }

  /** Lines that each hold a colon, all but the last, come out the same from
      the substitution as written and from the line-by-line one. */
  lemma {:induction false} SubPathsLines(lines: seq<string>)
    requires lines != [] && NoNewlines(lines)
    requires forall k :: 0 <= k < |lines| - 1 ==> ':' in lines[k]
    ensures SubPaths(Join(lines, "\n"), true) == Join(StripLines(lines), "\n")
    decreases |lines|
  {
    var out := StripLines(lines);
    if |lines| == 1 {
      SubPathsOneLine(lines[0]);
    } else {
      var rest := lines[1..];
      assert NoNewlines(rest) by {
        forall k | 0 <= k < |rest| ensures '\n' !in rest[k] {
          assert rest[k] == lines[k + 1];
        }
      }
      forall k | 0 <= k < |rest| - 1 ensures ':' in rest[k] {
        assert rest[k] == lines[k + 1];
      }
      SubPathsLines(rest);
      assert '\n' !in lines[0] && ':' in lines[0];
      SubPathsFirstLine(lines[0], Join(rest, "\n"));
      assert out[1..] == StripLines(rest);
    }
  }

  /** Where every line but the last names a file before its first colon, the
      substitution as written agrees with the line-by-line one. */
  lemma AsWrittenAgrees(s: string)
    requires forall k :: 0 <= k < |Split(s, "\n")| - 1 ==> ':' in Split(s, "\n")[k]
    ensures StripPathsAsWritten(s) == StripPaths(s)
  {
    SplitLinesHaveNoNewline(s);
    SubPathsLines(Split(s, "\n"));
  }

  /** The substitution as written, on a colon-free line followed by a report
      line, swallows the first line together with the path: on "x\ny.md:1"
      it gives "1". */
  lemma AsWrittenSwallowsLine(x: string, y: string, n: string)
    requires ':' !in x && ':' !in y
    requires n != [] && AllDigits(n)
    ensures StripPathsAsWritten(x + "\n" + y + ".md:" + n) == n
  {
    var p := x + "\n" + y + ".md";
    assert ':' !in p;
    assert MdPath(p);
    assert x + "\n" + y + ".md:" + n == p + ":" + n;
    PathAtOf(p, n);
    var h := PathAt(p + ":" + n).value;
    assert '\n' !in n by {
      assert forall i :: 0 <= i < |n| ==> IsDigit(n[i]);
    }
    assert '\n' !in h.after;
    SubPathsHit(p + ":" + n, h);
    SubPathsLastLine(h.after);
  }

  /** The line-by-line removal keeps that first line: on "x\ny.md:1" it
      gives "x\n1". */
  lemma CorrectedKeepsLine(x: string, y: string, n: string)
    requires ':' !in x && ':' !in y && '\n' !in x && '\n' !in y && y != []
    requires n != [] && AllDigits(n)
    ensures StripPaths(x + "\n" + y + ".md:" + n) == x + "\n" + n
  {
    var line := y + ".md:" + n;
    assert '\n' !in n by {
      assert forall i :: 0 <= i < |n| ==> IsDigit(n[i]);
    }
    assert '\n' !in line;
    assert x + "\n" + y + ".md:" + n == x + "\n" + line;
    SplitTwoLines(x, line);
    assert StripPaths(x + "\n" + line) == Join(StripLines([x, line]), "\n");
    assert StripLinePath(x) == x by {
      SplitAtCharOf(x, "", ':');
      assert x + "" == x;
    }
    StripLinePathOf(y, n, "");
    assert y + ".md:" + n + "" == line && n + "" == n;
    var out := StripLines([x, line]);
    assert out == [x, n];
    assert out[1..] == [n];
    assert Join(out, "\n") == x + "\n" + Join([n], "\n");
  }

  // ---------------------------------------------------------------------------
  // The whole report (markdown_fixer.py:26-58)

  /** The report once line-length reports are dropped and the summary count
      is lowered by their number. */
  function Rewritten(stdout: string, stderr: string): string {
    var lines := Split(stdout + stderr, "\n");
    RewriteSummary(Join(Kept(lines), "\n"), Marked(lines))
  }

  /** What run_markdownlint returns for the linter's two streams: the
      rewritten report with the path removal as markdown_fixer.py:58 writes
      it. */
  function FilteredReport(stdout: string, stderr: string): string {
    StripPathsAsWritten(Rewritten(stdout, stderr))
  }

  /** The same report with the corrected, line-by-line path removal. */
  function FilteredReportPerLine(stdout: string, stderr: string): string {
    StripPaths(Rewritten(stdout, stderr))
  }

  /** The two agree on every report whose lines, all but the last, each hold
      a colon, as linter reports do. */
  lemma FilteredReportsAgree(stdout: string, stderr: string)
    requires var lines := Split(Rewritten(stdout, stderr), "\n");
      forall k :: 0 <= k < |lines| - 1 ==> ':' in lines[k]
    ensures FilteredReport(stdout, stderr) == FilteredReportPerLine(stdout, stderr)
  {
    AsWrittenAgrees(Rewritten(stdout, stderr));
  }

  lemma {:induction false} KeptNone(lines: seq<string>)
    requires forall k :: 0 <= k < |lines| ==> !Reported(lines[k])
    ensures Kept(lines) == lines
    decreases |lines|
  {
    if lines != [] {
      KeptNone(lines[1..]);
      assert [lines[0]] + lines[1..] == lines;
    }
  }

  /** A report with no line-length line and no summary only loses its paths. */
  lemma FilteredReportOnlyStripsPaths(stdout: string, stderr: string)
    requires forall k :: 0 <= k < |Split(stdout + stderr, "\n")| ==> !Reported(Split(stdout + stderr, "\n")[k])
    requires !Contains(stdout + stderr, SummaryLabel)
    ensures FilteredReport(stdout, stderr) == StripPathsAsWritten(stdout + stderr)
    ensures FilteredReportPerLine(stdout, stderr) == StripPaths(stdout + stderr)
  {
    var lines := Split(stdout + stderr, "\n");
    KeptNone(lines);
  }

  /** On "x\ny.md:1" with nothing else to filter, run_markdownlint returns
      "1", where the line-by-line removal would return "x\n1". */
  lemma FilteredReportSwallowsLine(x: string, y: string, n: string)
    requires ':' !in x && ':' !in y && '\n' !in x && '\n' !in y && y != []
    requires n != [] && AllDigits(n)
    requires !Reported(x) && !Reported(y + ".md:" + n)
    requires !Contains(x + "\n" + y + ".md:" + n, SummaryLabel)
    ensures FilteredReport(x + "\n" + y + ".md:" + n, "") == n
    ensures FilteredReportPerLine(x + "\n" + y + ".md:" + n, "") == x + "\n" + n
  {
    var s := x + "\n" + y + ".md:" + n;
    var line := y + ".md:" + n;
    assert '\n' !in n by {
      assert forall i :: 0 <= i < |n| ==> IsDigit(n[i]);
    }
    assert s + "" == s == x + "\n" + line;
    SplitTwoLines(x, line);
    FilteredReportOnlyStripsPaths(s, "");
    AsWrittenSwallowsLine(x, y, n);
    CorrectedKeepsLine(x, y, n);
  }

  // ---------------------------------------------------------------------------
  // Normalising the reply (markdown_fixer.py:232-249)

  const MarkdownFence: string := "```markdown"

  /** The three fence removals, in order: a leading "```markdown", then a
      leading "```", then a trailing "```". */
  function DropFences(c: string): string {
    var c1 := if StartsWith(c, MarkdownFence) then c[|MarkdownFence|..] else c;
    var c2 := if StartsWith(c1, CodeFence) then c1[|CodeFence|..] else c1;
    if EndsWith(c2, CodeFence) then c2[..|c2| - |CodeFence|] else c2
  }

  /** The text saved: no whitespace at the start, and exactly one newline at
      the end with no whitespace before it. */
  function Normalise(c: string): (r: string)
    ensures r != [] && r[|r| - 1] == '\n'
    ensures |r| == 1 || (!IsSpace(r[0]) && !IsSpace(r[|r| - 2]))
  {
    var t := Strip(DropFences(c));
    var u := RStrip(t);
    assert u != [] ==> u[0] == t[0];
    u + "\n"
  }

  /** main stops on a reply that reports an error; otherwise it saves the
      normalised reply. */
  function SavedFixedFile(reply: string): (r: Option<string>)
    ensures r.None? <==> StartsWith(reply, "Error:")
    ensures r.Some? ==> EndsWith(r.value, "\n")
  {
    if StartsWith(reply, "Error:") then None
    else
      var n := Normalise(reply);
      assert n[|n| - 1..] == "\n";
      Some(n)
  }

  /** A reply wrapped in a "```markdown" fence is saved as its stripped body. */
  lemma NormaliseFenced(body: string)
    ensures Normalise(MarkdownFence + "\n" + body + "\n" + CodeFence) == Strip(body) + "\n"
  {
    var c := MarkdownFence + "\n" + body + "\n" + CodeFence;
    var c1 := "\n" + body + "\n" + CodeFence;
    var c2 := "\n" + body + "\n";
    assert StartsWith(c, MarkdownFence) && c[|MarkdownFence|..] == c1 by {
      assert c == MarkdownFence + c1;
    }
    assert !StartsWith(c1, CodeFence) by {
      assert c1[0] == '\n';
      if |CodeFence| <= |c1| {
        assert c1[..|CodeFence|][0] == '\n';
      }
    }
    assert EndsWith(c1, CodeFence) && c1[..|c1| - |CodeFence|] == c2 by {
      assert c1 == c2 + CodeFence;
    }
    assert DropFences(c) == c2;
    assert Strip(c2) == Strip(body) by {
      assert c2 == "\n" + (body + "\n");
      StripBlankPrefix("\n", body + "\n");
      StripBlankSuffix(body, "\n");
    }
    RStripOfStripped(body);
  }

  /** The rstrip after the strip changes nothing. */
  lemma NormaliseIsStrip(c: string)
    ensures Normalise(c) == Strip(DropFences(c)) + "\n"
  {
    RStripOfStripped(DropFences(c));
  }

  lemma MarkdownFenceIsFence(c: string)
    ensures StartsWith(c, MarkdownFence) ==> StartsWith(c, CodeFence)
  {
    if StartsWith(c, MarkdownFence) {
      assert c[..|CodeFence|] == MarkdownFence[..|CodeFence|];
    }
  }

  /** A reply with no fence at either end is saved stripped, with one newline. */
  lemma NormalisePlain(c: string)
    requires !StartsWith(c, CodeFence) && !EndsWith(c, CodeFence)
    ensures Normalise(c) == Strip(c) + "\n"
  {
    MarkdownFenceIsFence(c);
    assert DropFences(c) == c;
    NormaliseIsStrip(c);
  }

  lemma EndsWithNewlineNotFence(r: string)
    requires r != [] && r[|r| - 1] == '\n'
    ensures !EndsWith(r, CodeFence)
  {
    if |CodeFence| <= |r| {
      assert r[|r| - |CodeFence|..][|CodeFence| - 1] == '\n';
    }
  }

  /** Stripped text with one newline added is saved as it is, unless it
      opens with a fence. */
  lemma NormaliseFixed(u: string)
    requires Strip(u) == u && !StartsWith(u + "\n", CodeFence)
    ensures Normalise(u + "\n") == u + "\n"
  {
    var r := u + "\n";
    assert Strip(r) == u by {
      StripBlankSuffix(u, "\n");
    }
    EndsWithNewlineNotFence(r);
    NormalisePlain(r);
  }

  /** Normalising saved text that does not open with a fence gives it back. */
  lemma NormaliseIdempotent(c: string)
    requires !StartsWith(Normalise(c), CodeFence)
    ensures Normalise(Normalise(c)) == Normalise(c)
  {
    var u := Strip(DropFences(c));
    NormaliseIsStrip(c);
    StripIdempotent(DropFences(c));
    NormaliseFixed(u);
  }
}
